// Option and Result values shared by every module, and the kinds of
// exception the Metatab code raises. An exception is modelled as an `Err`
// carrying its class; messages are not modelled.
module Wrappers {

  datatype Option<T> = None | Some(value: T)
  {
    function GetOr(default: T): T
    {
      if Some? then value else default
    }
  }

  /** The exception classes raised by the modelled code. */
  datatype Exc =
    | ValueError        // a bad split, list.remove of a missing element, int() of a non-number
    | KeyError          // a missing dictionary key
    | IndexError        // an empty row indexed at 0
    | TypeError         // a call with the wrong arguments, indexing a str with a str
    | AttributeError    // a method called on None
    | AssertionError    // a failed `assert`
    | ParserError       // metatab.exc.ParserError
    | IncludeError      // metatab.exc.IncludeError (a ParserError)
    | GenerateError     // metatab.exc.GenerateError
    | DeclarationError  // raised by the declaration code
    | MetatabError      // raised by MetatabDoc.load_terms
    | ConstError        // numbering.Constant
    | RecursionLimit    // Python's RecursionError: include nesting deeper than the fuel given
    | Unsupported       // not raised by the source: a case outside the model (a cyclic link, a walk past its bound)

  datatype Result<T> = Ok(value: T) | Err(error: Exc)
  {
    predicate IsFailure() { Err? }

    function PropagateFailure<U>(): Result<U>
      requires Err?
    {
      Err(error)
    }

    function Extract(): T
      requires Ok?
    {
      value
    }
  }
}
