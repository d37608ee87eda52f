// Serializer of metatab/serialize.py: the declaration dicts it keeps, the
// loading of the declarations a document names under 'declare', and
// serialize(d), which is flatten(d) with tuple keys. Reading a declaration
// document is a call into the legacy term interpreter and the network; here
// it is the parameter `load`, which maps a 'declare' value to the terms
// and sections dicts that interpreter would produce.
module Serialize {
  import opened Wrappers
  import opened ODict
  import opened Flatten

  /** The values a document's 'declare' entry names: a list's items, or the one value. */
  function Declared<A>(d: Tree<A>): (r: seq<Tree<A>>)
    ensures !d.Mapping? || !Has(d.entries, "declare") ==> r == []
  {
    match d
    case Mapping(es) =>
      (match Get(es, "declare")
       case None => []
       case Some(v) => if v.Sequence? then v.items else [v])
    case _ => []
  }

  /** The terms dict after `update`-ing it with each loaded declaration's terms, in order. */
  function LoadedTerms<A, S, T>(t: Dict<string, T>, ds: seq<Tree<A>>, load: Tree<A> -> (Dict<string, T>, Dict<string, S>)): Dict<string, T>
    decreases |ds|
  {
    if ds == [] then t else Update(LoadedTerms(t, ds[..|ds| - 1], load), load(ds[|ds| - 1]).0)
  }

  /** The sections dict after `update`-ing it with each loaded declaration's sections, in order. */
  function LoadedSections<A, S, T>(s: Dict<string, S>, ds: seq<Tree<A>>, load: Tree<A> -> (Dict<string, T>, Dict<string, S>)): Dict<string, S>
    decreases |ds|
  {
    if ds == [] then s else Update(LoadedSections(s, ds[..|ds| - 1], load), load(ds[|ds| - 1]).1)
  }

  class Serializer<S, T> {
    var sections: Dict<string, S>
    var terms: Dict<string, T>

    /** Serializer() without a config: empty terms and sections declarations. */
    constructor()
      ensures sections == [] && terms == []
    {
      sections := [];
      terms := [];
    }

    /** load_declarations(d): every declaration named under 'declare' is merged in, later ones overriding. */
    method LoadDeclarations<A>(d: Tree<A>, load: Tree<A> -> (Dict<string, T>, Dict<string, S>))
      modifies this
      ensures terms == LoadedTerms(old(terms), Declared(d), load)
      ensures sections == LoadedSections(old(sections), Declared(d), load)
    {
      var decls := Declared(d);
      for i := 0 to |decls|
        invariant terms == LoadedTerms(old(terms), decls[..i], load)
        invariant sections == LoadedSections(old(sections), decls[..i], load)
      {
        var dd := load(decls[i]);
        assert decls[..i + 1][..i] == decls[..i];
        terms := Update(terms, dd.0);
        sections := Update(sections, dd.1);
      }
      assert decls[..|decls|] == decls;
    }

    /** serialize(d): the declarations are loaded, then d is flattened with tuple keys. */
    method SerializeDoc<A>(d: Tree<A>, load: Tree<A> -> (Dict<string, T>, Dict<string, S>)) returns (r: seq<(FlatKey, A)>)
      modifies this
      ensures r == SerializerFlatten(d, None)
      ensures terms == LoadedTerms(old(terms), Declared(d), load)
      ensures sections == LoadedSections(old(sections), Declared(d), load)
    {
      LoadDeclarations(d, load);
      r := SerializerFlatten(d, None);
    }
  }

  /** A term no loaded declaration mentions keeps its declaration. */
  lemma {:induction false} LoadedKeepsOthers<A, S, T>(t: Dict<string, T>, ds: seq<Tree<A>>, load: Tree<A> -> (Dict<string, T>, Dict<string, S>), k: string)
    requires forall i :: 0 <= i < |ds| ==> k !in Keys(load(ds[i]).0)
    ensures Get(LoadedTerms(t, ds, load), k) == Get(t, k)
    decreases |ds|
  {
    if ds != [] {
      LoadedKeepsOthers(t, ds[..|ds| - 1], load, k);
      UpdateOther(LoadedTerms(t, ds[..|ds| - 1], load), load(ds[|ds| - 1]).0, k);
    }
  }

  /** A term the last declaration defines takes that definition. */
  lemma LoadedLastWins<A, S, T>(t: Dict<string, T>, ds: seq<Tree<A>>, load: Tree<A> -> (Dict<string, T>, Dict<string, S>), j: nat)
    requires ds != [] && Distinct(load(ds[|ds| - 1]).0) && j < |load(ds[|ds| - 1]).0|
    ensures Get(LoadedTerms(t, ds, load), load(ds[|ds| - 1]).0[j].0) == Some(load(ds[|ds| - 1]).0[j].1)
  {
    UpdateLast(LoadedTerms(t, ds[..|ds| - 1], load), load(ds[|ds| - 1]).0, j);
  }

  /** Every pair serialize(d) returns names a leaf of d by its path, and each leaf once. */
  lemma SerializedPairsAreLeaves<A>(d: Tree<A>, j: nat)
    requires WellFormed(d) && j < |SerializerFlatten(d, None)|
    ensures SerializerFlatten(d, None)[j].0.TupleKey?
    ensures Lookup(d, SerializerFlatten(d, None)[j].0.path) == Some(Leaf(SerializerFlatten(d, None)[j].1))
  {
    LeavesSound(d, j);
  }
}
