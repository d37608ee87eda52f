# Metatab term interpreter in Dafny

Metatab is a metadata format written as rows of a spreadsheet or CSV
file. Each row holds a dotted term name (`Parent.Record`), a value and
positional arguments. The term interpreter reads the rows in order and
builds a tree of terms. It resolves elided parents (`.foo`), renames
argument children after the parameters of the last `Section` row,
substitutes synonyms, and grows a table of declared terms and sections
from `Declare` documents. The tree is then folded into nested dicts.

This project models that interpreter and the pieces around it, in each
of the places the repository implements it:

- `terms.dfy` (`Terms`) and `termobjects.dfy` (`TermObjects`): the `Term`,
  `SectionTerm` and `RootSectionTerm` objects of metatab/terms.py. Term
  objects are shared by reference, so every term lives in one table and a
  reference is an index into it. `TermObjects.TermTable` holds the methods
  that update that table in place:
  - `AddChild`, `GetOrNewChild`, `SetItem`, `SetTerm` and `SortByTerm` are
    proved against the `Terms` function of the same name;
  - `SetOwnership` is proved against `TermObjects.WithOwnership`, and
    `RemoveRefs` against `TermObjects.RemovedRef`;
  - `Add`, `SetSection` and `AppendSectionTerm` are single field updates,
    and their contracts state the new table outright.
- `parser.dfy` (`Parser`), `parser_props.dfy` (`ParserProps`) and
  `termparser.dfy` (`TermParserClass`): `TermParser` of metatab/parser.py.
  - `generate_terms` and `__iter__` run interleaved, as the Python
    generator does.
  - `TermParserClass` is the parser as an object with mutable fields. Each
    method is proved against the `Parser` function it runs, for instance
    `AddDeclaredSection` against `Parser.DeclaredSection`, `InheritChildren`
    against `Parser.Inherit` and `Iterate` against `Parser.ParseFrom`.
- `doc.dfy` (`Doc`): `MetatabDoc` of metatab/doc.py, covering its term
  list, its section registry and `find`.
- `legacy_terms.dfy`, `legacy_interp.dfy` and `legacy_dict.dfy`: the older
  Python parser, python/metatab/parser.py.
- `jsmetatab.dfy` (`JsMetatab`): the JavaScript port, js/metatab.js.
- `generate.dfy`: the row generators of metatab/generate.py.
- Flatteners:
  - `flatten.dfy`: the two Python flatteners of metatab/util.py and
    metatab/serialize.py;
  - `serialize.dfy`: the Serializer of metatab/serialize.py;
  - `jsflatten.dfy`: flatten and compareDict of js/test/flatten.js.
- `builder.dfy`: the document builder of metatab/builder.py.
- `numbering.dfy`: the number formatting of metatab/numbering.py.
- `metapack_cli.dfy`: the name helpers of metatab/cli/metapack.py.
- `metaaws.dfy`: the policy readers of metapack/cli/metaaws.py.
- Helper modules:
  - `wrappers.dfy`: Option, Result and the exception kinds;
  - `text.dfy`: the string built-ins of both languages;
  - `odict.dfy`: insertion-ordered dicts;
  - `scans.dfy`: scans that stop at the first error;
  - `sorting.dfy`: a stable sort by key.

An exception is an `Err` carrying its class. In the older generator of
python/metatab/parser.py (`LegacyTerms.Gen`), a generator that raises part
way through is modelled as the terms it yielded together with the
exception that ended it. The parser of metatab/parser.py is modelled as a
`Result`: a parse that raises gives only the exception, without the terms
yielded before it (see "## Left out").

Where a piece of code does something other than what it evidently means
to do, the interpreter models the code as written. A corrected definition
sits beside it, with the intended property proved about it (see
"## Findings").

Some quirks are modelled as written, with a lemma that states them:

- `Doc.FindRootBranchDead`: the `startswith('Root.')` test at
  metatab/doc.py:582 runs on a lower-cased string, so it never holds.
- `Doc.MetatabDoc.GetOrNewSectionCase`: get_or_new_section (metatab/doc.py:491-496)
  tests membership with the name as given.
- `JsMetatab`: argument children are gated on the primary value
  (js/metatab.js:167).
- `Terms`: a name with more than one '.' raises (metatab/terms.py:129).
- Numbering: a truthy revision raises AttributeError in `_rev_str`
  (metatab/numbering.py:299-301). This is `Numbering.RevStr` and
  `Numbering.DatasetNumberStr`.
- De-duplication: when all nineteen attempts are taken, the name that is
  kept is already seen (`MetapackCli.DedupExhausted`).

The general description of the format and the code differ in two places.
In both, the model follows the code:

- The description says a `DeclareSection` gets its argument names from
  its numeric fields. The older interpreter never gives it any (python/metatab/parser.py:531).
- The description says a `DeclareTerm` is listed under its section. The
  older interpreter tests the wrong names (python/metatab/parser.py:540, 550).

## Model

| member | source | states |
|---|---|---|
| Terms.SplitTerm | metatab/terms.py:121-140 | a name without a dot is (root, stripped name); a name that splits gives a stripped record without a dot; the only failure is the ValueError of a bad unpacking |
| Terms.SplitOneDot | metatab/terms.py:121-140 | with exactly one dot the halves are stripped and an empty parent becomes the elided sentinel |
| Terms.SplitManyDots | metatab/terms.py:121-140 | a name with two or more dots raises ValueError |
| Terms.SplitTermParent | metatab/terms.py:121-140 | the parent of a split name is non-empty, stripped and has no dot |
| Terms.SplitTermLower | metatab/terms.py:141-149 | succeeds exactly when split_term does, with both halves lower-cased |
| Terms.NormalizeIdempotent | metatab/terms.py:400-404 | normalising a normalised name gives it back |
| Terms.TermIs | metatab/terms.py:435-460 | term_is for one pattern fails only with split_term's ValueError |
| Terms.TermIsExact | metatab/terms.py:444-460 | a dotted pattern without `*` matches exactly the terms whose lower-cased joined name it is |
| Terms.TermIsUnqualified | metatab/terms.py:446-447 | a pattern without a dot is matched as root.<pattern> |
| Terms.TermIsWildcard | metatab/terms.py:453-458 | `*` as parent matches any parent with that record, as record any record under that parent, and `*.*` everything |
| Terms.TermIsAnyExists | metatab/terms.py:462-464 | a list of patterns matches when one of them matches |
| Terms.TermIsPlainName | metatab/terms.py:444-460 | two plain lower-case parts match exactly the terms so named |
| Terms.NewTerm | metatab/terms.py:37-105 | the new term has no children, the given parent, section, name, row, column and file type, and a value that is stripped when truthy and None otherwise |
| Terms.NewSection | metatab/terms.py:645-676 | a section term is a section of the requested kind with no children and no terms, its column set to the row number, no header args, no parent and no section |
| Terms.SetTerm | metatab/terms.py:391-399 | the setter changes only that term, keeps its children and stores the new name |
| Terms.SetTermUnqualified | metatab/terms.py:391-399 | a name without a dot, set on a term with a parent, takes the parent's record name as its parent name and the lower-cased, stripped name as its record |
| Terms.QualifiedTerm | metatab/terms.py:425-433 | fails exactly for a term with no parent object whose parent name is not root |
| Terms.ChildName | metatab/terms.py:221-226 | an undotted name is used as it is; a dotted one must name this term as parent, and what is looked up has no dot |
| Terms.Matching | metatab/terms.py:209-219 | exactly the children with the record name (and value, when given), in order |
| Terms.FindFirst | metatab/terms.py:221-233 | succeeds exactly when the name is acceptable, and what it finds is a child of the term |
| Terms.GetItem | metatab/terms.py:275-290 | what `self[item]` returns is a term of the table |
| Terms.ChildPairs | metatab/terms.py:496-501 | one (lower-cased record name, value) pair per child, in order |
| Terms.PropsLastWins | metatab/terms.py:496-501 | props holds every child's name, with the value of the last child of that name |
| Terms.ArgProps | metatab/terms.py:503-515 | fails exactly for a term without a section; otherwise holds the term's value under its lower-cased value name |
| Terms.Descendents | metatab/terms.py:613-620 | every descendent is a later term of the table |
| Terms.DescendentsOf | metatab/terms.py:613-620 | the descendents of a run of children are later than their parent |
| Terms.Convert | metatab/terms.py:536-582 | a converted term is a value or a dict, never a list |
| Terms.ConvertShape | metatab/terms.py:543-582 | a term without children converts to its value; one with children to a dict that holds a truthy value under the lower-cased value name |
| Terms.ConvertChildren | metatab/terms.py:548-571 | the loop over children fills the dict as the fold over the children does |
| Terms.Aggregate | metatab/terms.py:550-571 | reference definition, no contract of its own: one child folded in by its property type; stated by Terms.AggregateOther, Terms.AggregateStarts, Terms.AggregateAppends and Terms.AggregatePromotes |
| Terms.AggregateOther | metatab/terms.py:550-571 | a child filed under another name leaves a key alone |
| Terms.AggregateStarts | metatab/terms.py:552-567 | the first child of a name stores its value, or a one-element list for a sequence |
| Terms.AggregateAppends | metatab/terms.py:555-564 | a later child of a non-scalar name appends to the list |
| Terms.AggregatePromotes | metatab/terms.py:562-571 | a second child of an `any` name turns the stored value into a two-element list |
| Terms.FoldOther | metatab/terms.py:550-571 | children without the name leave its key as it was |
| Terms.FoldAppend | metatab/terms.py:550-571 | folding a concatenation folds the first part and then the second |
| Terms.ScalarLastWins | metatab/terms.py:552-553 | for a scalar name, the last child with that name decides the key |
| Terms.ConvertAll | metatab/terms.py:550-571 | one converted value per child, in order, each the child's own conversion |
| Terms.SectionAsDict | metatab/terms.py:861-870 | reference definition, no contract of its own: the section converted with its terms standing in for its children, by the same fold as Terms.Convert |
| Terms.KeyedCons | metatab/terms.py:550-571 | a leading child of the name heads the keyed list and its conversion |
| Terms.AppendsFrom | metatab/terms.py:555-564 | once a list is stored, every later child of the name is appended in order |
| Terms.SequenceCollects | metatab/terms.py:555-560 | a sequence name holds one converted value per child of that name, in order, and no key when there is none |
| Terms.AnyPromotes | metatab/terms.py:562-571 | an `any` name is absent with no child, the value with one, and a list in order with two or more |
| Terms.AnyAfterFirst | metatab/terms.py:562-571 | after a first scalar, an `any` name collects the first value and every later one in order |
| Terms.RootAsDict | metatab/terms.py:878-884 | with value names replaced, the root's dict has no '@value' key |
| Terms.AddChild | metatab/terms.py:165-170 | appends exactly that child and points it at the parent, changing no other term; a Datafile.Section child fails the assertion |
| Terms.AddChildValid | metatab/terms.py:165-170 | adding a later term as a child keeps the table well formed |
| Terms.AppendChild | metatab/terms.py:172-184 | a new term goes to the end of the table and of the parent's children, changing nothing else |
| Terms.AppendChildValid | metatab/terms.py:172-184 | appending a fresh child keeps the table well formed |
| Terms.NewChildRecord | metatab/terms.py:172-184 | a child created as "<record>.<rt>" has record name rt, lower-cased |
| Terms.NewChildFound | metatab/terms.py:172-184 | a child appended when none matched is then the first match of its name |
| Terms.GetOrNewChild | metatab/terms.py:247-273 | returns a term of the resulting table, which only grows |
| Terms.GetOrNewChildValid | metatab/terms.py:247-273 | get_or_new_child keeps the table well formed |
| Terms.GetOrNewChildReuses | metatab/terms.py:254-262 | an existing child of the name is returned, its value replaced only when one is given, and it stays the first match |
| Terms.GetOrNewChildCreates | metatab/terms.py:264-271 | with no child of the name, a new last child of that name is created and becomes the first match |
| Terms.GetOrNewChildFinds | metatab/terms.py:247-273 | after get_or_new_child, find_first of the name returns the child it gave |
| Terms.SetValueValid | metatab/terms.py:292-298 | changing only a value keeps the table well formed |
| Terms.SetItem | metatab/terms.py:292-309 | the value name or 'value' sets only the term's own value |
| Terms.TerminalPairs | metatab/terms.py:585-612 | only named terminal children give property pairs |
| Terms.TerminalPairsKeys | metatab/terms.py:585-612 | every named terminal child appears among the row's properties |
| Terms.TermRows | metatab/terms.py:585-612 | the first row is the term's own, under its qualified name |
| Terms.TermRowProps | metatab/terms.py:585-612 | the first row's properties are exactly the declared value name and the names of the named terminal children |
| Terms.ArgsSplit | metatab/terms.py:821-842 | one argument per property name |
| Terms.SplitArgs | metatab/terms.py:821-842 | the loop of _args computes ArgsSplit |
| Terms.ArgsSplitSpec | metatab/terms.py:821-842 | each argument is the property of that name, matched without case, or '' when absent or already taken; what is left is the rest of the properties in order |
| Terms.RemainRows | metatab/terms.py:843-859 | one property row per left-over property, in order |
| Terms.RowOut | metatab/terms.py:843-859 | a section writes a term as an argument row (one more cell than the property names) followed by property rows |
| Terms.SortByJoin | metatab/terms.py:773-798 | sorting by join_lc is a permutation of table terms |
| Terms.SortByJoinSorted | metatab/terms.py:773-798 | the result is ordered by join_lc |
| Terms.Partition | metatab/terms.py:773-798 | the matches and the others together are a permutation of the input |
| Terms.PartitionMatches | metatab/terms.py:773-798 | the first part holds exactly the matching terms and the second the others |
| Terms.OrderFirst | metatab/terms.py:773-798 | the ordered result is a permutation of the terms; with no order entries it is the join_lc sort |
| Terms.OrderFirstHead | metatab/terms.py:773-798 | the first order entry's matches, all of which match it, head the result |
| Terms.SortByTerm | metatab/terms.py:773-798 | only the section's term list changes; it is a permutation of the old list and, with no order, sorted by join_lc |
| Terms.JoinLcIsLowerJoin | metatab/terms.py:405-414 | join_lc is join lower-cased, and the two agree on lower-case names |
| Terms.PropertyNames | metatab/terms.py:689-695 | a section's property names are its Header args when it has any, and its own args otherwise |
| Terms.AllPropsMerged | metatab/terms.py:518-525 | all_props has exactly the keys of arg_props and of props, a key no child names keeps its arg_props value, and a term without a section raises |
| Doc.FindPattern | metatab/doc.py:575-580 | the pattern find matches against is lower case and always qualified (contains a '.') |
| Doc.FindRootBranchDead | metatab/doc.py:575-585 | the `startswith('Root.')` test is made on the lower-cased pattern, so it never holds and find always walks all_terms |
| Doc.FindUnqualified | metatab/doc.py:579-580 | a name without a '.' is searched as `root.<name>` |
| Doc.WithDescendents | metatab/doc.py:849-853 | every term it yields, each section term followed by its descendents, is a node of the table |
| Doc.AllTerms | metatab/doc.py:839-853 | all_terms yields only nodes of the table: every section but Root, then each of its terms followed by its descendents |
| Doc.ChildInAllTerms | metatab/doc.py:849-853 | a term of a section and every child of that term are in all_terms |
| Doc.InSection | metatab/doc.py:557-568 | no section selects every term; a term without a section is in no named section; otherwise the answer is a case-insensitive comparison with the section's name, or any item of a list; a nameless section raises AttributeError |
| Doc.InSectionAny | metatab/doc.py:565-566 | a list of sections selects a term when some item of the list selects it |
| Doc.SelectsTail | metatab/doc.py:565-566 | a list selects a name exactly when its first item or the rest of the list does |
| Doc.FindStep | metatab/doc.py:587-597 | one term of find's loop: root.root is skipped, a term with no section (other than root.section) fails the assertion, and otherwise the term is kept exactly when it matches the pattern, the section and the value |
| Doc.Match | metatab/doc.py:587-597 | find's per-term test, total over the table's indices, equals FindStep |
| Doc.FindInSound | metatab/doc.py:587-599 | every term find returns was among the generated terms and passes all three tests |
| Doc.FindInComplete | metatab/doc.py:587-599 | every generated term that passes all three tests is returned |
| Doc.FindLoop | metatab/doc.py:587-599 | the loop over the generated terms returns exactly the filter of them by the test, stopping at the first test that raises |
| Doc.FindSpecFindsChild | metatab/doc.py:587-599 | a child of a section's term that passes the tests is among the results, since all_terms yields descendents |
| Doc.FindSpec | metatab/doc.py:574-599 | every term find returns for one name is a term of the table that passes the name, value and section tests |
| Doc.NameSearch | metatab/doc.py:571-572 | the search for each name of a list is find on that name |
| Doc.FindAnySpec | metatab/doc.py:571-572 | a list of names gives the concatenation of the results; the first name's results are a prefix |
| Doc.TermGet | metatab/terms.py:370-376 | Term.get returns a child of the term, or None when the lookup raises KeyError |
| Doc.KwAll | metatab/doc.py:552 | the keyword test passes only when no keyword value is a plain string, since a child term is compared by identity with the value |
| Doc.KwTest | metatab/doc.py:550-553 | the keyword test, total over the table's indices, equals KwAll |
| Doc.FindKwStringMatchesNothing | metatab/doc.py:545-555 | as written, a keyword argument with a string value, the documented use, makes find return no term at all |
| Doc.FindKwSpec | metatab/doc.py:538-572 | find with keyword arguments succeeds only when the search without them succeeds, and returns only terms that search found |
| Doc.KwAllIntended | metatab/doc.py:538-542 | the intended test succeeds exactly when every named child value can be read, and passes exactly when each child's value equals the given one |
| Doc.FindKwIntendedExact | metatab/doc.py:538-555 | the corrected find keeps exactly the found terms whose named child values match |
| Doc.SlugParts | metatab/doc.py:795-796 | the kept parts are at most as many as the parts given |
| Doc.IdentityNameSplits | metatab/doc.py:795-799 | when no slug holds '-', splitting the identity name on '-' gives back the slugged parts |
| Doc.SlugPartsCons | metatab/doc.py:795-796 | a blank or missing part contributes nothing, and any other part contributes its slug in its place |
| Doc.ColName | metatab/doc.py:178-188 | the column name is never empty: altname if set, otherwise name if set, otherwise `col<i>` |
| Doc.NameForColTerm | metatab/doc.py:178-188 | reading the column term's altname and name either fails or yields ColName of them, which is not empty |
| Doc.SomeAll | metatab/doc.py:836-838 | every cell of a value row is kept, in order |
| Doc.OutRow | metatab/doc.py:831-838 | a row is the title-cased term name followed by the argument list, or by the single value |
| Doc.OutRows | metatab/doc.py:831-838 | every term row becomes one output row, in order |
| Doc.SectionHeader | metatab/doc.py:822-825 | the Root section has no header rows; any other section has an empty row, then `Section`, its name and its property names |
| Doc.SectionBlock | metatab/doc.py:820-838 | a section's rows are its header rows followed by the rows of its terms, and fail exactly when its term rows fail |
| Doc.Block | metatab/doc.py:820-838 | the block of a registry entry equals SectionBlock of its section |
| Doc.DocRowsAppend | metatab/doc.py:817-838 | the rows of a document are the rows of its sections, in registry order |
| Doc.DocRowsSnoc | metatab/doc.py:817-838 | one more section appends exactly that section's block to the rows |
| Doc.MetatabDoc.Rows | metatab/doc.py:816-838 | reference definition, no contract of its own: the DocRows of the document's sections in registry order; stated by Doc.DocRowsAppend, Doc.DocRowsSnoc and Doc.SectionBlock |
| Doc.RemoveSectionKeeps | metatab/doc.py:517-527 | removing a section leaves the registry in range and its keys lower case |
| Doc.SectionArgsAnyCase | metatab/doc.py:481-483 | section_args looks a section up case-insensitively and gives [] for an undeclared section |
| Doc.PlacedKeep | metatab/doc.py:655-676 | once placed, a term stays placed as load_terms goes on over later terms |
| Doc.RemoveEachLoop | metatab/doc.py:519-521 | removing each term of a section from the term list in turn gives RemoveEach, which stays duplicate-free, or ValueError when one is missing |
| Doc.MetatabDoc.constructor | metatab/doc.py:376-403 | the document __init__ builds for a ref, before load_terms: no terms, no sections, no root and no declarations (the branch without a ref raises, see Doc.RootSectionCallRaises) |
| Doc.MetatabDoc.Contains | metatab/doc.py:529-531 | `in` holds exactly when the lower-cased name is a section key |
| Doc.MetatabDoc.GetSection | metatab/doc.py:498-502 | the section registered under the lower-cased name, or KeyError exactly when there is none |
| Doc.MetatabDoc.GetOrNewSection | metatab/doc.py:491-496 | a name present as given is get_section; any other name takes the creating branch, which raises TypeError |
| Doc.MetatabDoc.GetOrNewSectionCase | metatab/doc.py:491-496 | a name not in lower case whose section exists is still not found, although get_section finds it |
| Doc.MetatabDoc.AddSection | metatab/doc.py:469-479 | a non-section term fails the assertion; a section is registered under its lower-cased value unless one exists, and the registered section is returned; nothing else changes |
| Doc.MetatabDoc.AddTermHere | metatab/doc.py:441-449 | the ownership assertion, then a section term is registered as a section and any other term is appended to the term list |
| Doc.MetatabDoc.SectionAddTerm | metatab/terms.py:697-711 | a term not yet in the section must be root-level (GenerateError otherwise) and is appended to the section's terms and given to the document |
| Doc.MetatabDoc.AddTerm | metatab/doc.py:436-454 | a listed term changes nothing; otherwise a plain term joins the term list, a section term joins the sections, and the registry only grows |
| Doc.MetatabDoc.RemoveTermAsWritten | metatab/doc.py:456-467 | as written, every root-level term with a section, and every child term, makes remove_term fail; a missing term raises ValueError |
| Doc.MetatabDoc.LeaveSection | metatab/doc.py:462-464 | the term's section is registered, becomes its section and loses the term from its term list; children are untouched |
| Doc.MetatabDoc.LeaveParent | metatab/doc.py:466-467 | remove_child fails with ValueError exactly when the term is not a child of the parent and otherwise removes it |
| Doc.MetatabDoc.RemoveTerm | metatab/doc.py:456-467 | the corrected remove_term: the term leaves the term list, its section's term list and its parent's children, or ValueError when it is not listed |
| Doc.MetatabDoc.Detach | metatab/doc.py:461-467 | the section and parent steps of remove_term, with the term list unchanged |
| Doc.MetatabDoc.DelItem | metatab/doc.py:517-527 | a section named as given loses its terms from the term list and is dropped; a name absent as given only drops the lower-cased key; a missing term leaves the registry |
| Doc.MetatabDoc.Find | metatab/doc.py:574-599 | the loop over all_terms returns exactly FindSpec |
| Doc.MetatabDoc.FindKw | metatab/doc.py:545-572 | the search over a list of names, filtered by the keyword test when there are keyword arguments, returns exactly FindKwSpec |
| Doc.BindArgs | metatab/terms.py:645-646 | a call binds exactly when it has no more positional arguments than parameters, every keyword names a parameter not already given by position, and each parameter without default is given one way or the other; otherwise TypeError |
| Doc.RootSectionCallRaises | metatab/doc.py:406-410 | without a ref, the root's SectionTerm('Root', term='Root', ...) gives `term` twice and raises TypeError, so that branch of __init__ never builds a document |
| Doc.NewSectionCallRaises | metatab/doc.py:485-496 | new_section's and get_or_new_section's SectionTerm(name, term_args=..., doc=..., parent=...) gives no `value` and raises TypeError |
| Doc.MetatabDoc.FindFirst | metatab/doc.py:601-608 | fails exactly when find fails, with find's error; otherwise the first term find returns, which passes find's tests, or None exactly when find found nothing |
| Doc.MetatabDoc.DocGetValue | metatab/doc.py:619-625 | get_value fails exactly when find_first fails and gives the default when nothing is found |
| Doc.MetatabDoc.IdentityPart | metatab/doc.py:787-793 | the default, the document's Root.<part> value, is looked up first even when the name term has the part, so a failing default lookup fails the part |
| Doc.MetatabDoc.GenerateIdentityName | metatab/doc.py:783-799 | with no Root.Name in the Root section the name term is None and `.value` raises AttributeError |
| Doc.MetatabDoc.LoadOne | metatab/doc.py:659-676 | root.root becomes the root, root.root and root.section join the sections only, a root-level term joins the term list, and any other term must have a parent |
| Doc.MetatabDoc.LoadTerms | metatab/doc.py:655-692 | a root with children raises MetatabError; otherwise every term is placed and the declarations are merged in |
| Doc.LeftSection | metatab/doc.py:462-464 | the section step keeps the table's size and sets the term's section |
| Doc.TermIsRootNames | metatab/doc.py:664-668 | the term_is tests of load_terms compare join_lc exactly |
| Parser.Munge | metatab/parser.py:394-395 | the parameter map has one entry per header argument |
| Parser.PyIndex | metatab/parser.py:385 | Python indexing: defined exactly for -len <= k < len, and the k-th item for a non-negative k |
| Parser.Remap | metatab/parser.py:383-390 | only the record name changes; a record name int() rejects, or an index outside the parameter map, leaves the term as it is; otherwise the record name becomes str() of the map entry |
| Parser.SubstituteSynonym | metatab/parser.py:155-163 | only the parent and record names change; a term whose join_lc is not a synonym is unchanged; a synonym takes the lower-cased split of its target |
| Parser.TermClass | metatab/parser.py:177-192 | a registered class for the lower-cased name wins; with none, and no super term, the class is Term |
| Parser.NonBlank | metatab/parser.py:484 | exactly the stripped non-blank arguments are kept |
| Parser.DeclaredSection | metatab/parser.py:481-486 | the section is recorded under its lower-cased value with its non-blank arguments and no terms; a term without a value raises AttributeError; the dictionary keeps distinct keys |
| Parser.NonBlankProps | metatab/parser.py:528 | exactly the argument properties whose value is not blank are kept; a None value raises |
| Parser.AddToSection | metatab/parser.py:534-547 | an undeclared section raises DeclarationError; otherwise only that section's term list changes, gaining the term name once, and the keys stay as they were |
| Parser.PutGrows | metatab/parser.py:532 | storing a declaration keeps every earlier key and adds the new one |
| Parser.InheritChild | metatab/parser.py:511-521 | a section term that is not a child of the inherited term changes nothing; otherwise the copied child is declared and added to the section, keys only growing |
| Parser.InheritFrom | metatab/parser.py:511-521 | the loop over inherited children keeps the section dictionary's keys and distinctness, and only adds declared terms |
| Parser.InheritPlan | metatab/parser.py:495-506 | nothing to inherit exactly when inheritsfrom is falsy; inheriting without a section raises DeclarationError; a plan names a declared section |
| Parser.Inherit | metatab/parser.py:488-521 | no inheritsfrom changes nothing; a missing section raises DeclarationError; otherwise the keys and distinctness are kept |
| Parser.DeclareTerm | metatab/parser.py:523-554 | a term without a value raises TypeError; on success the normalised name is declared, and the section keys are unchanged |
| Parser.AddValueOne | metatab/parser.py:562-565 | a declaration outside the value set is unchanged; inside it, a declaration without a values dictionary raises KeyError; its properties never change |
| Parser.AddValue | metatab/parser.py:562-565 | every declaration is updated by AddValueOne, in order and with the same keys, and the loop fails exactly when one of them does |
| Parser.AddValueSetValue | metatab/parser.py:556-565 | a value term without a parent raises AttributeError; the declared names are unchanged |
| Parser.ManageDeclare | metatab/parser.py:468-479 | a term that is neither DeclareSection, DeclareTerm nor a value leaves the declarations as they were |
| Parser.SetNodeValid | metatab/parser.py:392 | replacing a term's fields, keeping its links, keeps the table well formed |
| Parser.AppendTermValid | metatab/terms.py:697-711 | appending an existing term to a section's term list keeps the table well formed and every cell as it was |
| Parser.AppendNodeValid | metatab/parser.py:347-352 | a new term without children, referring to existing terms, extends a well-formed table |
| Parser.Renamed | metatab/parser.py:379-392 | the renaming at the top of the loop changes only the parent name, record name and section, which becomes the current one |
| Parser.HeaderStep | metatab/parser.py:397-402 | Root.Header sets the parameter map and the default value name, and writes the header arguments onto the current section; nothing else changes; a header without a value raises |
| Parser.SectionStep | metatab/parser.py:404-411 | Root.Section sets the parameter map, resets the last parent to the root, becomes the current section with default name @value, and has no section itself |
| Parser.RootStep | metatab/parser.py:413-415 | Root.Root becomes the current section and has no section itself; nothing else changes |
| Parser.Attach | metatab/parser.py:439-450 | add_child to an earlier term; it succeeds only for an earlier parent and keeps the table well formed |
| Parser.FirstColumn | metatab/parser.py:444-453 | as written: a term whose parent name equals its record name has been registered just before the lookup and would be its own parent, which the model reports as unsupported; an unknown parent raises ParserError; otherwise the term becomes the last parent and only its links change |
| Parser.FirstColumnIntended | metatab/parser.py:444-453 | with the lookup made before the registration: an unknown parent raises ParserError, and otherwise the term is registered and attached to an earlier term |
| Parser.Link | metatab/parser.py:435-453 | an elided term or argument child is attached to the last parent, KeyError when that is unknown; an elided term takes the last parent's name; any other term is FirstColumn |
| Parser.SectionTakes | metatab/terms.py:697-711 | a non-section raises AttributeError; a term already in the section changes nothing; a term not at root level raises GenerateError; otherwise the term is appended once and takes the section |
| Parser.OwnedCells | metatab/terms.py:697-711 | setting a term's section changes no cell and no name |
| Parser.ValueStep | metatab/parser.py:417-456 | a value term takes its declared child property type and value name (defaults any and the current default), is valid exactly when declared, and is then linked |
| Parser.Emit | metatab/parser.py:458-462 | a term from outside a declaration document is yielded; a declaration term only changes the declarations |
| Parser.Dispatch | metatab/parser.py:397-462 | every branch keeps the table well formed, the root, each cell, the record name, and only extends the output |
| Parser.Interpret | metatab/parser.py:377-462 | one turn of the loop keeps the table well formed and the root, the term keeps its renamed record name, and the output only grows |
| Parser.RowTerm | metatab/parser.py:289-298 | the term for a row has no links, the row number and file type given, and the normalised name of the first cell |
| Parser.ChildSpecs | metatab/parser.py:340-341 | exactly the non-blank arguments, with their indexes, in increasing order |
| Parser.ChildTerm | metatab/parser.py:343-352 | an argument child is named `<record>.<k>`, sits at column k+2 of its parent's row with that parent, and holds the stripped argument |
| Parser.KidsCons | metatab/parser.py:340-352 | the argument children are made in order, one per non-blank argument |
| Parser.KidStep | metatab/parser.py:343-352 | one argument child adds exactly one term, which is a child of `t` at its place, and keeps every earlier cell |
| Parser.ArgKids | metatab/parser.py:339-352 | the argument children add one term per non-blank argument and keep every earlier cell |
| Parser.ArgKidsShape | metatab/parser.py:339-352 | the terms the argument children add are, in order, one per remaining argument: named `<record term>.<index>`, at the row and the argument's column, with the stripped value or none for an empty one |
| Parser.FindIncludeDoc | metatab/parser.py:244-261 | an http name is used stripped of '/'; any other name is joined to the document's directory, IncludeError exactly when that directory is unknown |
| Parser.Resolve | metatab/parser.py:303-308 | reference definition, no contract of its own: an Include term is resolved by find_include_doc and a Declare term by the table of declaration documents, a term without a value raising AttributeError; stated through Parser.FindIncludeDoc and Parser.IncludeStep |
| Parser.IncludeStep | metatab/parser.py:303-331 | a document that includes itself raises IncludeError; otherwise the table only grows |
| Parser.IncludeRows | metatab/parser.py:315-320 | the included terms, then the current section again, only extend the table and the output |
| Parser.TermRow | metatab/parser.py:333-352 | a Section row becomes the generator's last section; the table and output only grow |
| Parser.RowStep | metatab/parser.py:284-352 | a blank or `#` row and a row whose value is a comment change nothing; any other row only extends the table and the output |
| Parser.GenRows | metatab/parser.py:263-357 | the rows of a document only extend the table and the output, keeping the root |
| Parser.StartInv | metatab/parser.py:359-373 | the parser starts in a well-formed state with the root registered |
| Parser.InstalledDistinct | metatab/parser.py:136-153 | the sections a declaration document predeclares have distinct names |
| Parser.ParseFrom | metatab/parser.py:359-466 | a parse that succeeds yields the root first and keeps the table well formed |
| Parser.Parse | metatab/parser.py:43-79 | a fresh parser's output starts with the root, term 0 |
| ParserProps.GetAddSynonym | metatab/parser.py:101-116 | after one more declaration, a synonym lookup gives that declaration's synonym for its own key and the earlier answer for every other key |
| ParserProps.InterpretSection | metatab/parser.py:404-411 | after a Root.Section term the parameter map is its munged arguments, the last parent is the root's record name, the default value name is @value and the term is the current section |
| ParserProps.RemapAfterSection | metatab/parser.py:383-395 | after a section with arguments, an integer record name k within them becomes the lower-cased k-th argument, or k itself when that argument is blank, and nothing else changes |
| ParserProps.RemapNonInteger | metatab/parser.py:384-387 | a record name int() rejects is never renamed |
| ParserProps.DeclareUndeclaredSection | metatab/parser.py:534-550 | a DeclareTerm naming a section that was never declared raises DeclarationError |
| ParserProps.AsWrittenSelfParent | metatab/parser.py:445-450 | as written, a first-column term whose parent and record names agree is looked up as its own parent |
| ParserProps.LookedUpEarlier | metatab/parser.py:449-450 | a parent looked up before the registration is the term recorded for that name, an earlier term |
| ParserProps.OrdersAgree | metatab/parser.py:445-450 | when the parent name is neither the record name nor the sentinel, registering before or after the lookup finds the same parent |
| ParserProps.FirstColumnParent | metatab/parser.py:444-450 | the step as written attaches the term to the parent found after registration |
| ParserProps.FirstColumnIntendedParent | metatab/parser.py:444-450 | the corrected step attaches the term to the parent found before registration |
| ParserProps.FirstColumnOrdersAgree | metatab/parser.py:444-453 | the as-written and corrected steps are the same step unless the parent name is the record name or the sentinel |
| ParserProps.SelfParentFinding | metatab/parser.py:444-450 | Foo.Foo after an earlier Foo: as written the term is its own parent and the step cannot go on; corrected, it becomes the earlier Foo's child |
| ParserProps.SelfParentNoEarlier | metatab/parser.py:444-453 | Foo.Foo with no earlier Foo: as written the term finds itself; corrected, it raises ParserError |
| ParserProps.PlainPattern | metatab/terms.py:435-467 | a pattern a.b without wildcards matches exactly the terms whose join_lc it is |
| Parser.Classify | metatab/parser.py:397-417 | reference definition, no contract of its own: the branch a term takes by its lower-cased qualified name; ParserProps.ClassifyIsTermIs states it is the three term_is tests |
| ParserProps.ClassifyIsTermIs | metatab/parser.py:397-417 | the three special branches of the loop are exactly the tests term_is('root.header'), term_is('root.section') and term_is('root.root'), tried in that order |
| TermParserClass.TermParser.constructor | metatab/parser.py:43-79 | a new parser over a document has an empty parameter map and the declarations install_declare_terms puts in place |
| TermParserClass.TermParser.AddDeclaredSection | metatab/parser.py:481-486 | the section dictionary becomes DeclaredSection's result, or is unchanged when the term has no value; nothing else changes |
| TermParserClass.TermParser.AddTermToSection | metatab/parser.py:534-547 | the section dictionary becomes AddToSection's result, or is unchanged on DeclarationError; nothing else changes |
| TermParserClass.TermParser.InheritChildren | metatab/parser.py:488-521 | the declarations become Inherit's result |
| TermParserClass.TermParser.AddDeclaredTerm | metatab/parser.py:523-554 | the declarations become DeclareTerm's result |
| TermParserClass.TermParser.AddValueSetValue | metatab/parser.py:556-565 | the declared terms become AddValueSetValue's result, updated in dictionary order; the sections are unchanged |
| TermParserClass.TermParser.ManageDeclareTerms | metatab/parser.py:468-479 | the declarations become ManageDeclare's result |
| TermParserClass.TermParser.Iterate | metatab/parser.py:359-466 | iterating the parser gives exactly ParseFrom over its state, and the parameter map and declarations it leaves stay with the parser |
| TermParserClass.TermParser.Keep | metatab/parser.py:398-405 | the parameter map and declarations an iteration leaves are the parser's own |
| TermParserClass.AddValueFails | metatab/parser.py:562-565 | the loop over the declared terms raises KeyError as soon as one declaration fails |
| TermParserClass.AddValueAll | metatab/parser.py:562-565 | when every declaration takes the value, the loop's result is the declarations so updated, in order |
| TermParserClass.GenerateRows | metatab/parser.py:284-352 | the loop over the rows of one document returns exactly GenRows |
| TermParserClass.InheritLoop | metatab/parser.py:511-521 | the loop over inherited children, reading the section's term list afresh on each turn, returns exactly InheritFrom |
| TermParserClass.InheritFromStep | metatab/parser.py:511-521 | one turn of the loop takes the section's next term and goes on with the declarations it leaves |
| TermParserClass.RunParse | metatab/parser.py:359-466 | a parse with given declarations returns exactly ParseFrom, whose section dictionary keeps distinct keys |
| TermObjects.WithOwnership | metatab/terms.py:199-207 | a term without a section fails the assertion; otherwise only ownership changes, every child takes the term's section, and terms up to `id` are untouched |
| TermObjects.OwnChildren | metatab/terms.py:199-207 | each child in turn takes the section and points at its parent, recursively; only ownership changes |
| TermObjects.OwnStep | metatab/terms.py:199-207 | one child's ownership followed by the rest's gives all the facts ownership promises |
| TermObjects.OwnersKeep | metatab/terms.py:199-207 | setting ownership keeps every name, class and term list |
| TermObjects.SetTermValid | metatab/terms.py:391-399 | renaming a term keeps the table well formed |
| TermObjects.SetItemValid | metatab/terms.py:292-309 | setting a child keeps the table well formed |
| TermObjects.SortByTermValid | metatab/terms.py:773-798 | sorting a section's terms keeps the table well formed |
| TermObjects.RemovedRef | metatab/terms.py:186-190 | only the one list changes, losing its first occurrence of `t`: a section's terms, or a term's children |
| TermObjects.RemovedRefValid | metatab/terms.py:755-764 | removing a reference keeps the table well formed and every name |
| TermObjects.TermTable.constructor | metatab/terms.py:37-105 | a new table of term objects is empty |
| TermObjects.TermTable.Add | metatab/terms.py:37-105 | a new term object is appended, and its id is its position |
| TermObjects.TermTable.AddChild | metatab/terms.py:165-170 | add_child fails exactly for a datafile section child, and otherwise the table becomes Terms.AddChild's result |
| TermObjects.TermTable.GetOrNewChild | metatab/terms.py:247-273 | the table becomes Terms.GetOrNewChild's result, and afterwards find_first of the record name is the child returned |
| TermObjects.TermTable.SetItem | metatab/terms.py:292-309 | the table becomes Terms.SetItem's result, or is unchanged when that fails |
| TermObjects.TermTable.SetTerm | metatab/terms.py:391-399 | the table becomes Terms.SetTerm's result, or is unchanged when that fails |
| TermObjects.TermTable.SetOwnership | metatab/terms.py:199-207 | fails exactly when the term has no section; otherwise the table becomes WithOwnership's result, keeping names and term lists |
| TermObjects.TermTable.SortByTerm | metatab/terms.py:773-798 | the section's terms become Terms.SortByTerm's result, a permutation of the old ones |
| TermObjects.TermTable.SetSection | metatab/terms.py:110-120 | only the term's section changes |
| TermObjects.TermTable.AppendSectionTerm | metatab/terms.py:697-711 | only the section's term list changes, gaining `t` at the end |
| TermObjects.TermTable.RemoveRefs | metatab/terms.py:186-190 | the table becomes RemovedRef's result |
| LegacyInterp.Iterate | python/metatab/parser.py:528 | `for e in v`: a list gives its items, a dict one item per key, and None raises TypeError |
| LegacyInterp.Field | python/metatab/parser.py:530 | `e[k]` succeeds exactly on a dict holding the key, and otherwise raises KeyError (a dict) or TypeError |
| LegacyInterp.AsStr | python/metatab/parser.py:530 | only a string can be used as a string |
| LegacyInterp.ArgsAsWritten | python/metatab/parser.py:531 | reference definition, no contract of its own: the values kept by the `isinstance(k, int)` filter; LegacyInterp.ArgsAsWrittenEmpty states that this is always [] |
| LegacyInterp.ArgsAsWrittenEmpty | python/metatab/parser.py:531 | the keys of a converted dict are strings, so the `isinstance(k, int)` filter keeps nothing and arguments are always [] |
| LegacyInterp.IntKeyedOrigin | python/metatab/parser.py:531 | every integer-keyed pair comes from an entry whose key reads as that integer |
| LegacyInterp.IntKeyedComplete | python/metatab/parser.py:531 | every entry whose key reads as an integer is kept |
| LegacyInterp.SortByInt | python/metatab/parser.py:531 | `sorted` keeps every pair: the result is a permutation of the input |
| LegacyInterp.SortByIntSorted | python/metatab/parser.py:531 | the pairs come out in increasing key order |
| LegacyInterp.ArgsByIndex | python/metatab/parser.py:531 | reference definition, no contract of its own: the values of the integer keys sorted by key; stated by LegacyInterp.ArgsByIndexOrdered, LegacyInterp.ArgsByIndexFromKeys and LegacyInterp.ArgsByIndexComplete |
| LegacyInterp.ArgsByIndexOrdered | python/metatab/parser.py:531 | the intended arguments are the values of the integer keys, sorted by key |
| LegacyInterp.ArgsByIndexFromKeys | python/metatab/parser.py:531 | each intended argument comes from an entry whose key reads as its index |
| LegacyInterp.ArgsByIndexComplete | python/metatab/parser.py:531 | every entry with an integer key gives an intended argument |
| LegacyInterp.SectionArgsFinding | python/metatab/parser.py:527-533 | a DeclareSection whose arguments sit under the keys "0" and "1" gets no arguments as written, and both, in order, as intended |
| LegacyInterp.SectionStepWith | python/metatab/parser.py:528-533 | a truthy entry must be a dict with a section name, and replaces that lower-cased section with its arguments and no terms; the terms are untouched |
| LegacyInterp.TermKey | python/metatab/parser.py:537 | the key is the lower-cased split name joined with '.', and fails exactly when the name does not split |
| LegacyInterp.ValueSetStep | python/metatab/parser.py:553-557 | the valueset step leaves the sections and the declared names alone; an entry that is not a dict changes nothing, and raises exactly when some declared term has a valueset |
| LegacyInterp.SetValueSets | python/metatab/parser.py:555-557 | exactly the declarations whose valueset equals the entry's name take the entry's value; a dict entry without a value raises KeyError; an entry that is not a dict raises AttributeError exactly when a term from i on has a valueset; the keys are kept |
| LegacyInterp.TermStepAsWritten | python/metatab/parser.py:535-551 | reference definition, no contract of its own: the DeclareTerm step with the section tests as the code makes them; stated by LegacyInterp.TermStepFiled, LegacyInterp.SectionTermsFinding and LegacyInterp.TermStepNoArgs |
| LegacyInterp.TermStep | python/metatab/parser.py:535-551 | reference definition, no contract of its own: the DeclareTerm step with the corrected section tests; stated by LegacyInterp.TermStored, LegacyInterp.TermListed and LegacyInterp.TermOtherSection |
| LegacyInterp.TermStored | python/metatab/parser.py:537-538 | a DeclareTerm with a name that splits is stored, as the whole entry, under its key |
| LegacyInterp.TermListed | python/metatab/parser.py:540-551 | with the corrected tests, a DeclareTerm naming a section is listed in that section once, after its earlier terms |
| LegacyInterp.TermOtherSection | python/metatab/parser.py:540-551 | a DeclareTerm for another section leaves a section's entry alone |
| LegacyInterp.TermStepFiled | python/metatab/parser.py:540-551 | when the section's own spelling is not a key, as written the section is re-created empty before the name is appended; corrected, the existing entry is kept; no other section changes |
| LegacyInterp.SectionTermsFinding | python/metatab/parser.py:540-551 | two DeclareTerms under a capitalised section: as written only the second is listed; corrected, both are, in order |
| LegacyInterp.TermsTwice | python/metatab/parser.py:535-551 | the two DeclareTerms of the finding, one after the other, raise nothing and leave the section with [n2] as written and [n1, n2] corrected |
| LegacyInterp.StepsPair | python/metatab/parser.py:536 | two entries run one after the other when the first raises nothing |
| LegacyInterp.SectionStepNoArgs | python/metatab/parser.py:527-533 | as written, a DeclareSection keeps every section without arguments |
| LegacyInterp.TermStepNoArgs | python/metatab/parser.py:540-551 | a DeclareTerm creates a section only with no arguments and keeps the arguments of the one it extends |
| LegacyInterp.ValueSetNoArgs | python/metatab/parser.py:553-557 | the valueset step leaves the sections alone |
| LegacyInterp.StepsNoArgs | python/metatab/parser.py:528-557 | a run of entries that each keep sections without arguments keeps them so |
| LegacyInterp.BlockNoArgs | python/metatab/parser.py:527-557 | one block of the declaration document keeps sections without arguments |
| LegacyInterp.ImportDeclareDoc | python/metatab/parser.py:524-557 | reference definition, no contract of its own: import_declare_doc as written, a TypeError on a document that is not a dict; stated by LegacyInterp.ImportNoArgs and LegacyInterp.HandleDeclare |
| LegacyInterp.ImportDeclareDocIntended | python/metatab/parser.py:524-557 | reference definition, no contract of its own: import_declare_doc with the arguments ordered by key and the corrected section tests; its steps are stated by LegacyInterp.ArgsByIndexOrdered and LegacyInterp.TermListed |
| LegacyInterp.ImportNoArgs | python/metatab/parser.py:524-557 | import_declare_doc as written never gives a section arguments |
| LegacyInterp.NoDotKey | python/metatab/parser.py:537 | a plain name is stored under `<NO_TERM>.<name>` |
| LegacyInterp.Synonym | python/metatab/parser.py:336-338 | a synonym found for a name is the `synonym` property of that declared term |
| LegacyInterp.SynonymsOf | python/metatab/parser.py:336-338 | the synonyms property has at most one entry per declared term |
| LegacyInterp.SynonymsAgree | python/metatab/parser.py:336-338 | the synonyms dict finds, for each name, exactly the declared term's synonym |
| LegacyInterp.Synonymize | python/metatab/parser.py:457-463 | a term whose name has no synonym keeps its parent and record names |
| LegacyInterp.Elide | python/metatab/parser.py:465-468 | an elided parent, when a last parent exists, becomes the last parent; otherwise the parent stays, and a term that is not an argument child becomes the last parent |
| LegacyInterp.ParamRecord | python/metatab/parser.py:470-476 | a record name int() rejects is kept, and an integer within the parameter map is replaced by str() of its entry |
| LegacyInterp.HandleDeclare | python/metatab/parser.py:497-522 | handle_declare leaves the last parent and parameter map alone; an IncludeError from the read is recorded and swallowed; a read document is imported as import_declare_doc is written |
| LegacyInterp.Step | python/metatab/parser.py:447-495 | an ordinary term is always handed on and leaves the parameter map and declarations alone; a special one is dropped exactly when remove_special; a Section sets the parameter map to its munged arguments |
| LegacyInterp.StepElided | python/metatab/parser.py:465-466 | an elided parent on the handed-on term is replaced by the last parent, which stays the same |
| LegacyInterp.StepSetsLastParent | python/metatab/parser.py:467-468 | a term that is neither elided nor an argument child becomes the last parent |
| LegacyInterp.StepRemaps | python/metatab/parser.py:470-472 | an integer record name within the parameter map is replaced by the map's entry |
| LegacyInterp.RunAll | python/metatab/parser.py:447-492 | iteration raises nothing only if the generator raises nothing |
| LegacyInterp.RunCounts | python/metatab/parser.py:447-492 | without special terms, one term is handed on for each term |
| LegacyInterp.RunRemovesSpecial | python/metatab/parser.py:479-482 | with remove_special, every handed-on term comes from an ordinary term at the same row and column |
| LegacyInterp.Drive | python/metatab/parser.py:356-386 | linking as the terms come keeps the link table well formed |
| LegacyInterp.DriveRaises | python/metatab/parser.py:367 | a term whose interpretation raises ends link_terms with that exception |
| LegacyInterp.DriveDrops | python/metatab/parser.py:479-482 | a dropped term is not linked and the loop goes on |
| LegacyInterp.DriveLinks | python/metatab/parser.py:367-382 | a handed-on term is linked to its parent, or ends the loop with ParserError when the parent is missing |
| LegacyInterp.DriveIsRunThenLink | python/metatab/parser.py:356-386 | linking as the terms come gives the same outcome as interpreting them all and then linking what was handed on |
| LegacyInterp.NodesOf | python/metatab/parser.py:384 | link_terms returns the linked nodes, or the exception that stopped it |
| LegacyInterp.TermInterpreter.constructor | python/metatab/parser.py:309-330 | a new interpreter has no parameter map, no declarations and no errors |
| LegacyInterp.TermInterpreter.Next | python/metatab/parser.py:453-492 | one term of __iter__ moves the interpreter's state exactly as Step does |
| LegacyInterp.TermInterpreter.LinkTerms | python/metatab/parser.py:356-386 | link_terms leaves the interpreter in Drive's state and returns its nodes or exception |
| LegacyInterp.TermInterpreter.LinkOne | python/metatab/parser.py:367-382 | one turn of the loop either stops with Drive's exception or leaves Drive to go on over the remaining terms |
| LegacyInterp.TermInterpreter.AsDict | python/metatab/parser.py:351-354 | as_dict converts link_terms' tree from the root, and leaves the interpreter in Drive's state |
| LegacyTerms.SplitTerm | python/metatab/parser.py:80-96 | a name without '.' has the parent NO_TERM and its stripped self as record; a name with more than one '.' cannot be unpacked (ValueError); the record never holds a '.' |
| LegacyTerms.SplitTermPair | python/metatab/parser.py:86-91 | a name with one '.' splits into its two stripped parts, a blank parent becoming ELIDED_TERM |
| LegacyTerms.SplitTermManyDots | python/metatab/parser.py:86-87 | a name with two or more dots raises ValueError |
| LegacyTerms.SplitTermLowerShape | python/metatab/parser.py:99-107 | both parts come out lower case and the record has no '.' |
| LegacyTerms.StripAll | python/metatab/parser.py:59 | every argument is stripped, in place |
| LegacyTerms.NewTerm | python/metatab/parser.py:38-77 | Term() fails exactly when the name does not split; its names are the lower-cased split; a falsy value becomes None |
| LegacyTerms.RowTerm | python/metatab/parser.py:266-271 | a row's term has lower-case names, the row number, column 1, and is not an argument child; it fails exactly when the lower-cased first cell does not split |
| LegacyTerms.NonBlank | python/metatab/parser.py:297-298 | the indexes of the non-blank arguments, in increasing order |
| LegacyTerms.NonBlankPos | python/metatab/parser.py:297-298 | every non-blank argument's index is listed |
| LegacyTerms.ChildTerm | python/metatab/parser.py:299-303 | the child of argument i is an argument child named `<record>.<i>`, at column i+2 of the row, with the stripped argument as value and no arguments |
| LegacyTerms.ChildOk | python/metatab/parser.py:299 | the child name of a record without '.' always splits, into the record and the index |
| LegacyTerms.ArgChildren | python/metatab/parser.py:296-303 | one child per non-blank argument, in argument order |
| LegacyTerms.ArgChildrenExact | python/metatab/parser.py:297-298 | an argument has a child exactly when it is not blank |
| LegacyTerms.BlankHasNoKid | python/metatab/parser.py:297-298 | no child stands in the column of a blank argument |
| LegacyTerms.KidColumn | python/metatab/parser.py:301 | child j stands in the column of the j-th non-blank argument |
| LegacyTerms.RowEmitsShape | python/metatab/parser.py:293-303 | a row's term comes first, and a Section row has no children |
| LegacyTerms.ArgChildrenOrdered | python/metatab/parser.py:297-303 | the children come in increasing column order |
| LegacyTerms.Generate | python/metatab/parser.py:240-303 | every term TermGenerator yields for a file has a lower-case parent and record name |
| LegacyTerms.GenFrom | python/metatab/parser.py:257-303 | reference definition, no contract of its own: the generator's loop from row k on, with included files read from the given table; stated by LegacyTerms.GenLower and LegacyTerms.Generate |
| LegacyTerms.GenLower | python/metatab/parser.py:257-303 | every generated term has lower-case parent and record names |
| LegacyTerms.RowLower | python/metatab/parser.py:261-303 | the terms from a row on have lower-case names |
| LegacyTerms.EmitsLower | python/metatab/parser.py:293-303 | the terms a row emits have lower-case names |
| LegacyTerms.IncludeLower | python/metatab/parser.py:273-291 | the terms of an included document have lower-case names |
| LegacyTerms.OnlySkippedRows | python/metatab/parser.py:263-264 | rows that are blank or comments yield nothing |
| LegacyTerms.IncludeWithoutPath | python/metatab/parser.py:273-279 | an Include in a generator with no path yields the Include term and then fails with AttributeError, since the message reads an attribute that is never set |
| LegacyDict.RootIsNewTerm | python/metatab/parser.py:364 | the root of link_terms is the term Term('Root', None) |
| LegacyDict.LinkInit | python/metatab/parser.py:364-365 | the link table starts well formed, with the root under NO_TERM |
| LegacyDict.LinkStep | python/metatab/parser.py:367-382 | a term whose parent name is not in last_term_map raises ParserError; otherwise it becomes a new node without children |
| LegacyDict.LinkAll | python/metatab/parser.py:367-382 | linking the terms adds one node per term, or raises ParserError |
| LegacyDict.LinkStepNodes | python/metatab/parser.py:376 | a step keeps every node and adds the term as the newest child of its parent, no other children changing |
| LegacyDict.LinkAllTerms | python/metatab/parser.py:364-384 | the linked tree holds the root and then every term, in order |
| LegacyDict.LinkAllTargets | python/metatab/parser.py:378-382 | argument children and terms with an elided parent never enter last_term_map |
| LegacyDict.InitTargets | python/metatab/parser.py:365 | the initial map points only at the root |
| LegacyDict.AddChildGet | python/metatab/parser.py:398-419 | adding a child changes only the entry of its record name, to the new entry |
| LegacyDict.CollectedStep | python/metatab/parser.py:403-419 | one more child of a non-scalar name extends the collected entry |
| LegacyDict.FoldCollects | python/metatab/parser.py:398-419 | a name all of whose children share a property type other than scalar holds all of their values |
| LegacyDict.FoldOthers | python/metatab/parser.py:398-419 | children with other names leave a name's entry alone |
| LegacyDict.FoldScalarLast | python/metatab/parser.py:400-401 | a scalar name takes the value of its last child |
| LegacyDict.Convert | python/metatab/parser.py:394-427 | a node converts to its value exactly when it has no children, and never to a list |
| LegacyDict.Kids | python/metatab/parser.py:398 | every child is converted, in order |
| LegacyDict.ConvertCollects | python/metatab/parser.py:394-424 | in a node's dict, a name whose children share a non-scalar property type holds their values in order |
| LegacyDict.ValueUnderName | python/metatab/parser.py:421-422 | a node with children and a value keeps the value under its term value name |
| LegacyDict.ConvertToDict | python/metatab/parser.py:387-427 | convert_to_dict returns exactly Convert of the node |
| JsMetatab.TermPartsShape | js/metatab.js:27-50 | the record part never holds a '.', the parent part is never empty, and the lower-cased parts are lower case |
| JsMetatab.TermPartsPair | js/metatab.js:29-37 | a name with one '.' splits into its two trimmed sides, an empty parent becoming ELIDED_TERM |
| JsMetatab.TermPartsDropsRest | js/metatab.js:30-32 | whatever follows a second '.' is dropped, since only parts[0] and parts[1] are read |
| JsMetatab.JoinSplits | js/metatab.js:27-45 | joining a trimmed parent and record and splitting the result gives them back |
| JsMetatab.Globals.constructor | js/metatab.js:24-25 | the module variables parentTerm and recordTerm start undefined |
| JsMetatab.Globals.SplitTerm | js/metatab.js:27-45 | splitTerm returns the two parts and leaves them in the module variables |
| JsMetatab.Globals.SplitTermLower | js/metatab.js:47-50 | splitTermLower returns the parts lower-cased, while the module variables keep the original case |
| JsMetatab.NonBlankCount | js/metatab.js:63-67 | `valid_vals` counts at most every argument |
| JsMetatab.NonBlankCountStep | js/metatab.js:64-67 | each turn of the loop adds one exactly for an argument that is not blank once trimmed |
| JsMetatab.NonBlankCountZero | js/metatab.js:63-73 | `valid_vals` is 0 exactly when every argument is blank |
| JsMetatab.TermArgsShape | js/metatab.js:61-77 | the arguments are dropped when all are blank, and otherwise kept, each trimmed, in order |
| JsMetatab.TermArgsIdempotent | js/metatab.js:100 | building a Term from an existing Term's arguments changes nothing in them |
| JsMetatab.NewTermConstructed | js/metatab.js:53-91 | a new Term has the constructor's defaults and lower-case names |
| JsMetatab.CloneKeeps | js/metatab.js:98-115 | the clone equals the term except that its section is undefined (it reads `this.cection`) and its fileName is null (it writes `c.filename`) |
| JsMetatab.JsTerm.constructor | js/metatab.js:53-91 | `new Term` holds NewTerm of its arguments, has no children, and leaves the split in the module variables |
| JsMetatab.JsTerm.Clone | js/metatab.js:98-115 | clone() is a fresh object described by CloneOf, sharing the children list |
| JsMetatab.TermFromRow | js/metatab.js:119-128 | termFromRow gives null exactly when the row has no usable name and value cells, and otherwise a fresh term for the row |
| JsMetatab.ArgChildrenUpToLength | js/metatab.js:166-177 | there is one child for each of the first k arguments |
| JsMetatab.ArgChildrenUpToAt | js/metatab.js:166-177 | child j of the first k is the child for argument j |
| JsMetatab.RowTermsPrimary | js/metatab.js:151-157 | a row without a name and value cell, or with an empty name, gives nothing; otherwise the primary term comes first, in column 1, with the row number and path |
| JsMetatab.RowTermsChildren | js/metatab.js:165-178 | the children follow the primary term, one per kept argument, exactly when it is not a section and its value is not blank |
| JsMetatab.BlankValueNoChildren | js/metatab.js:167 | a primary term with a blank value gets no children, whatever its arguments hold |
| JsMetatab.ChildShape | js/metatab.js:168-174 | argument child i has the primary's record name as parent, the index as record name, and column i+2 |
| JsMetatab.Generated | js/metatab.js:149-184 | reference definition, no contract of its own: the terms of the first k rows, each row's primary term then its argument children; stated by JsMetatab.GeneratedStep, JsMetatab.RowTermsPrimary, JsMetatab.RowTermsChildren and JsMetatab.GenerateTerms |
| JsMetatab.GeneratedStep | js/metatab.js:149-184 | one more row appends exactly that row's terms |
| JsMetatab.GenerateTerms | js/metatab.js:149-184 | the terms handed to the callback are fresh objects holding Generated's terms, in order |
| JsMetatab.RowTermObjects | js/metatab.js:151-178 | one row hands on exactly RowTerms' terms, in order |
| JsMetatab.ArgChildObjects | js/metatab.js:166-177 | the loop over the primary's arguments hands on exactly ArgChildren's terms, in order |
| JsMetatab.NewChild | js/metatab.js:168-174 | the loop body builds a fresh child term described by ChildOf |
| JsMetatab.Visit | js/metatab.js:220-268 | reference definition, no contract of its own: one term of run's loop, the new state and the clone handed on, if any; stated by JsMetatab.VisitSection, JsMetatab.VisitElided, JsMetatab.VisitSetsLastParent, JsMetatab.ChildRenamed and JsMetatab.VisitHandsOn |
| JsMetatab.RunUpTo | js/metatab.js:213-269 | reference definition, no contract of its own: the state and the handed-on terms after the first k generated terms; stated by JsMetatab.RunUpToStep, JsMetatab.RunHandsOn, JsMetatab.RunUpToLength and JsMetatab.TermInterpreter.Run |
| JsMetatab.RunUpToStep | js/metatab.js:220-268 | one more term moves the state by Visit and appends what Visit hands on |
| JsMetatab.VisitSection | js/metatab.js:247-255 | a term whose renamed record is "section" in any case is swallowed and replaces the parameter map by its arguments; any other term keeps the map and is handed on under its renamed record |
| JsMetatab.VisitElided | js/metatab.js:227-230 | an elided parent becomes the last parent, which stays as it was |
| JsMetatab.VisitSetsLastParent | js/metatab.js:231-237 | any other term not flagged as an argument child makes its record name the last parent |
| JsMetatab.ChildRenamed | js/metatab.js:239-244 | argument child i, after a section naming at least i+1 arguments, is handed on under that argument's name, with the primary as parent |
| JsMetatab.VisitHandsOn | js/metatab.js:220-268 | every handed-on term is a clone of a generated term |
| JsMetatab.RunHandsOn | js/metatab.js:213-269 | every term run hands on is such a clone |
| JsMetatab.RunUpToLength | js/metatab.js:213-269 | run hands on at most one term per generated term |
| JsMetatab.TermInterpreter.constructor | js/metatab.js:186-190 | a new interpreter keeps its path |
| JsMetatab.TermInterpreter.Run | js/metatab.js:213-269 | run() hands on, in order, exactly the terms RunUpTo gives over the generated terms |
| JsFlatten.InsertIndex | js/test/flatten.js:32 | inserting an index entry keeps every entry and adds one |
| JsFlatten.InsertIndexSorted | js/test/flatten.js:32 | inserting into index entries in ascending order keeps them ascending |
| JsFlatten.SortIndexEntries | js/test/flatten.js:32 | array-index keys come out ascending, a permutation of the input |
| JsFlatten.SplitEntries | js/test/flatten.js:32 | every entry is either an array-index entry or another one |
| JsFlatten.JsOrder | js/test/flatten.js:32 | the for-in order visits every entry of the object once |
| JsFlatten.JsOrderShape | js/test/flatten.js:32 | for-in visits array indices first, ascending, and every other key after them, in insertion order |
| JsFlatten.OwnKeysHas | js/test/flatten.js:32 | for-in visits exactly the object's keys |
| JsFlatten.PermutedKeys | js/test/flatten.js:32 | a reordering of an object has the same keys |
| JsFlatten.Writes | js/test/flatten.js:22-39 | recurse(cur, prop) makes at least one assignment, and every key it writes starts with prop |
| JsFlatten.LoopStep | js/test/flatten.js:26-34 | the writes of child i extend the writes of the children before it |
| JsFlatten.Flattener.constructor | js/test/flatten.js:20 | the result object starts empty |
| JsFlatten.Flattener.Recurse | js/test/flatten.js:22-39 | recurse(cur, prop) makes exactly the assignments Writes lists, in order, on the result object |
| JsFlatten.Flattener.RecurseArray | js/test/flatten.js:25-29 | every element is written under prop.i, then [] when there is none |
| JsFlatten.Flattener.RecurseObject | js/test/flatten.js:30-38 | every property is written under prop.p in for-in order, then {} when there is none |
| JsFlatten.JsFlattenData | js/test/flatten.js:19-45 | flatten(data) returns exactly FlattenSpec of the data |
| JsFlatten.FlattenSpec | js/test/flatten.js:19-45 | the result of applying the writes to an empty object has exactly the written keys |
| JsFlatten.FlattenLastWrite | js/test/flatten.js:24 | a key holds its last write |
| JsFlatten.EmptyArrayRecorded | js/test/flatten.js:28-29 | unlike util.flatten, an empty array is recorded under its key |
| JsFlatten.JsRenderedAppend | js/test/flatten.js:22-39 | rendering the leaves of two parts gives the rendered parts one after the other |
| JsFlatten.LeavesUpTo | metatab/util.py:11-21 | the leaves of a container are those of each child, in order |
| JsFlatten.WritesLeaves | js/test/flatten.js:22-39 | without empty containers, recurse writes one scalar per leaf, in reference order |
| JsFlatten.WritesUpToLeaves | js/test/flatten.js:26-34 | the writes of the first n children are the rendered leaves of those children |
| JsFlatten.JsKeyIsUtilKey | metatab/util.py:14 | with every key non-empty, the JavaScript and util.flatten keys of a leaf agree |
| JsFlatten.JsMatchesUtil | metatab/util.py:9-23 | the j-th write of flatten.js is the j-th pair of util.flatten(d, '.') on values without empty containers or empty keys |
| JsFlatten.MissingLoop | js/test/flatten.js:53-57 | the first loop reports exactly the keys of fb that fa lacks |
| JsFlatten.DiffLoop | js/test/flatten.js:59-66 | the second loop reports the keys of fa that fb lacks and the truthy values that differ |
| JsFlatten.CompareDict | js/test/flatten.js:47-70 | compareDict(a, b) returns exactly CompareSpec(a, b) |
| JsFlatten.MissingInANone | js/test/flatten.js:53-57 | no "Missing in a" report means fa holds every key of fb |
| JsFlatten.DiffErrorsNone | js/test/flatten.js:59-62 | no report from the second loop means fb holds every key of fa |
| JsFlatten.CompareFlat | js/test/flatten.js:47-70 | compareDict's error list on two flattened values: no errors means they have the same keys |
| JsFlatten.MissingReported | js/test/flatten.js:53-56 | a key only fb has is reported as missing in a |
| JsFlatten.SelfCompareReportsEmpty | js/test/flatten.js:63-64 | as written, a value holding an empty array is reported as different from itself, since `[] != []` holds for two arrays |
| JsFlatten.SingleEmptyArray | js/test/flatten.js:59-66 | the flat dict {x: []} compared with itself reports x as different |
| JsFlatten.MissingInASelf | js/test/flatten.js:53-57 | a dict compared with itself has nothing missing |
| JsFlatten.DiffErrorsSelf | js/test/flatten.js:59-66 | with a value comparison, a dict compared with itself shows no difference |
| JsFlatten.CorrectedSelfCompare | js/test/flatten.js:47-70 | with the corrected comparison a value is never reported as different from itself |
| Flatten.LeavesSound | metatab/util.py:16-21 | every pair of the reference flattening names, by its path, a leaf holding that pair's value |
| Flatten.LeavesComplete | metatab/util.py:16-21 | every leaf reachable by a path appears with that path |
| Flatten.LeavesDistinct | metatab/util.py:16-21 | no path occurs twice, so there is exactly one pair per leaf |
| Flatten.EmptyContainers | metatab/util.py:16-19 | an empty mapping or an empty list contributes no pair |
| Flatten.UFlat | metatab/util.py:11-21 | reference definition, no contract of its own: util's recursive `_flatten` over one node; Flatten.UFlatLeaves states it renders the node's leaves in order |
| Flatten.UFlatLeaves | metatab/util.py:11-21 | util's `_flatten` yields one pair per leaf, in order, keyed by the leaf's path rendered with the separator |
| Flatten.UtilFlatten | metatab/util.py:9-23 | flatten(d, sep) gives one pair per leaf of d, in reference order, keyed by the leaf's path rendered with sep from an empty parent key |
| Flatten.RenderedUnder | metatab/util.py:14-19 | rendering below a child's key is prefixing the child's own rendering with the key and the separator |
| Flatten.RenderedAppend | metatab/util.py:17-19 | the rendering of two runs of pairs is the renderings one after the other |
| Flatten.UtilKeyIsJoin | metatab/util.py:14 | when no key component is empty, a leaf's key is its path's components joined by `sep` |
| Flatten.TopLeaf | metatab/util.py:21-23 | a scalar flattens to the single pair ('', value) |
| Flatten.EmptyKeyNoSeparator | metatab/util.py:14 | an empty key adds no separator, so {'': {'a': v}} flattens to [('a', v)] |
| Flatten.SFlat | metatab/serialize.py:66-74 | reference definition, no contract of its own: Serializer's recursive `_flatten` over one node; Flatten.SFlatLeaves states it gives the node's leaves with their paths as tuple keys |
| Flatten.SFlatLeaves | metatab/serialize.py:66-74 | Serializer's `_flatten` yields the leaves with tuple keys that are their paths below the parent key |
| Flatten.SerializerFlatten | metatab/serialize.py:64-77 | with sep None the keys are the leaves' paths as tuples; with a separator, the str() of the components joined |
| Flatten.UtilMatchesSerializer | metatab/serialize.py:76-77 | util.flatten and Serializer.flatten with the same separator give the same j-th pair when no key component of that leaf is empty |
| Generate.PathOr | metatab/generate.py:20 | a non-empty path is kept |
| Generate.NewRowGen | metatab/generate.py:16-20 | the generator's path is the given one, or '<none>' when that is empty |
| Generate.RowsUnchanged | metatab/generate.py:32-34 | MetatabRowGenerator yields its rows unchanged and in order |
| Generate.FirstBreak | metatab/generate.py:71 | the first line boundary of the text, or none when the text has no boundary |
| Generate.SplitLines | metatab/generate.py:71 | no line returned by splitlines() holds a line boundary |
| Generate.SplitLinesCons | metatab/generate.py:71 | a line followed by LF, CR or CR LF is the first line, and splitting carries on after the boundary |
| Generate.SplitJoinLines | metatab/generate.py:71 | lines joined by LF split back into the same lines, when the last one is not empty |
| Generate.NewTextGen | metatab/generate.py:41-72 | TextRowGenerator keeps the text's lines from splitlines() and its path or '<none>' |
| Generate.SectionPrefix | metatab/generate.py:96-97 | a line that does not start with '====' is left as it is |
| Generate.TextRow | metatab/generate.py:99 | a line's row has one cell, or two when the line holds a ':' |
| Generate.LineRows | metatab/generate.py:87-101 | a line yields nothing exactly when it is a comment, and at most one row otherwise |
| Generate.TextRows | metatab/generate.py:84-101 | at most one row per line, each with one or two cells |
| Generate.TextRowsAppend | metatab/generate.py:87 | the rows of two runs of lines are the rows of each, in order |
| Generate.TextRowsOne | metatab/generate.py:87-101 | one line yields nothing if it is a comment, and its own row otherwise |
| Generate.BlankAndComment | metatab/generate.py:88-101 | a line starting '#' yields nothing; a blank line yields [''] |
| Generate.ValueKeepsColons | metatab/generate.py:99 | only the first ':' splits: `Key: a:b` keeps `a:b` as the value, both parts stripped |
| Generate.EqualsSection | metatab/generate.py:91-99 | four or more '=' then a name give the row ['Section', name] |
| Serialize.Declared | metatab/serialize.py:55-57 | a document without a 'declare' entry names no declaration |
| Serialize.Serializer.constructor | metatab/serialize.py:29-33 | without a config both the terms and the sections declarations start empty |
| Serialize.Serializer.LoadDeclarations | metatab/serialize.py:44-62 | every declaration the document names is loaded in order, its terms and sections merged into the dicts with `update` |
| Serialize.Serializer.SerializeDoc | metatab/serialize.py:35-42 | serialize(d) loads d's declarations and returns flatten(d) with tuple keys |
| Serialize.LoadedTerms | metatab/serialize.py:44-62 | reference definition, no contract of its own: the terms dict after one `update` per loaded declaration, in order; stated by Serialize.LoadedKeepsOthers and Serialize.LoadedLastWins |
| Serialize.LoadedKeepsOthers | metatab/serialize.py:61 | a term that no loaded declaration defines keeps its earlier declaration |
| Serialize.LoadedLastWins | metatab/serialize.py:59-61 | a term the last loaded declaration defines takes that definition |
| Serialize.SerializedPairsAreLeaves | metatab/serialize.py:64-77 | every pair serialize(d) returns has a tuple key that leads to a leaf of d holding the pair's value |
| Builder.QualifiedTerm | metatab/builder.py:141-144 | the qualified term ends with '.' and the lower-cased term |
| Builder.QualifiedLower | metatab/builder.py:141-144 | a qualified term is lower-case whatever the case of the terms it is built from |
| Builder.TableAcyclic | metatab/builder.py:133-152 | in a consistent record table a record's children come after it, so no record is its own ancestor |
| Builder.KwRecs | metatab/builder.py:146-147 | each keyword argument becomes a leaf child of the new record, in order, in the same section, qualified by the record's term |
| Builder.Made | metatab/builder.py:133-152 | making a record adds the record and one child per keyword argument |
| Builder.MadeTable | metatab/builder.py:133-152 | making a record in a section, below a parent of that section, keeps the tables consistent |
| Builder.MadePrefix | metatab/builder.py:149-152 | the records already there are unchanged but for the parent's children list, which only grows |
| Builder.NewRecOk | metatab/builder.py:133-147 | the new record is consistent: section, parent and children in range |
| Builder.KwRecOk | metatab/builder.py:146-152 | every keyword child record is consistent |
| Builder.NewTermTable | metatab/builder.py:88-91 | listing a new top-level record in its section keeps the tables consistent |
| Builder.TermValueName | metatab/builder.py:162 | a term with no declaration uses '@value' |
| Builder.HasPut | metatab/builder.py:168 | after `properties[k] = v` the dict has k and every key it had |
| Builder.PropsHas | metatab/builder.py:165-168 | the properties have exactly the term-value name and the terms of the terminal children |
| Builder.PropsValue | metatab/builder.py:165 | the record's value sits under the term-value name unless a terminal child has that term |
| Builder.PropsChild | metatab/builder.py:166-168 | a terminal child's value sits under its term unless a later terminal child has the same term |
| Builder.RowsAreRecords | metatab/builder.py:159-175 | rows starts with the record's own (qualified term, properties) row, and every row is the row of the record or of a non-terminal record below it |
| Builder.ChildRowsAreRecords | metatab/builder.py:172-175 | the rows of the children are rows of non-terminal records after the record |
| Builder.RecRows | metatab/builder.py:159-175 | reference definition, no contract of its own: the record's (qualified term, properties) row, then the rows of each non-terminal child in order; stated by Builder.RowsAreRecords |
| Builder.LowerPairs | metatab/builder.py:101 | the dict's pairs with lower-cased keys, in order |
| Builder.ArgsFrom | metatab/builder.py:103-110 | one argument slot per name |
| Builder.ArgNames | metatab/builder.py:104 | the slot names are the term-value name followed by the section's parameters |
| Builder.ArgsRemain | metatab/builder.py:103-112 | the keys left over are exactly those no slot name consumed |
| Builder.ArgsValue | metatab/builder.py:105-110 | a slot holds its lower-cased name's value, or '' when it is missing or an earlier slot already consumed it |
| Builder.LastSegment | metatab/builder.py:126 | `term.split('.')[-1]` holds no '.' |
| Builder.RemainLines | metatab/builder.py:125-126 | each key left over becomes the row `<last segment>.<key>` with its value, in order |
| Builder.SectionArgs | metatab/builder.py:97-112 | args returns the term itself, one slot for the term-value name and each parameter, and exactly the lower-cased keys no slot name consumed |
| Builder.RecordLines | metatab/builder.py:117-126 | a dict row becomes the term with one cell per slot, then single-cell rows each prefixed by the term's last segment and a '.' |
| Builder.RecordLinesShape | metatab/builder.py:117-129 | a dict row becomes the term with one cell per slot, then one row per key no slot consumed |
| Builder.SectionLines | metatab/builder.py:114-129 | reference definition, no contract of its own: the RecordLines of every row of every term of the section, terms in order; each piece is stated by Builder.RecordLines |
| Builder.DisplayLines | metatab/builder.py:52-60 | each section row is written as its display name followed by its cells |
| Builder.DocRows | metatab/builder.py:43-60 | reference definition, no contract of its own: the SectionBlock of each section in the order the sections were made |
| Builder.SectionBlock | metatab/builder.py:47-60 | every section but Root starts with a blank row and a Section row naming it and its parameters; Root's block is its term rows alone |
| Builder.DisplayName | metatab/builder.py:55 | every 'root.' is removed and the rest title-cased: a term starting with 'root.' is the title-cased rest with every further 'root.' removed, and a term without any 'root.' is only title-cased |
| Text.ReplaceAbsent | metatab/builder.py:55 | replace leaves a string in which the pattern does not occur unchanged |
| Builder.DisplayExample | metatab/builder.py:55 | 'root.title' is written as 'Title' |
| Builder.ParamNames | metatab/builder.py:78-80 | the given parameters when there are some, else the declared section's args, else none |
| Builder.MetatabDoc.constructor | metatab/builder.py:11-29 | the document keeps the loaded terms and sections declarations and starts with no sections and no records |
| Builder.MetatabDoc.NewSection | metatab/builder.py:38-41 | new_section appends an empty section with its parameter names and changes nothing else |
| Builder.MetatabDoc.SetParamNames | metatab/builder.py:82-86 | only the section's parameter names change, to the given ones or the declared args |
| Builder.MetatabDoc.MakeRecord | metatab/builder.py:133-152 | the record and its keyword children are added to the table at the next indices, and the tables stay consistent |
| Builder.MadeLoop | metatab/builder.py:145-147 | adding the keyword children one at a time, each listed last among the record's children, yields exactly the table `Made` describes: the record at the next index followed by one child per keyword argument, in order |
| Builder.MetatabDoc.NewTerm | metatab/builder.py:88-91 | new_term makes a top-level record and appends it to the section's terms |
| Builder.MetatabDoc.NewChild | metatab/builder.py:149-152 | new_child makes a record in the parent's section and appends it to the parent's children |
| Builder.MetatabDoc.Args | metatab/builder.py:97-112 | the slot loop returns the term, the slots and the leftover keys the Section.args specification gives |
| Builder.KwStep | metatab/builder.py:146-152 | one keyword child more is listed last in the record's children and follows the earlier ones |
| Numbering.AlphabetIsDigits | metatab/numbering.py:279 | the alphabet has 62 characters, the digit d at position d |
| Numbering.ValueOfDigit | metatab/numbering.py:279 | every digit reads back as its value |
| Numbering.Digits | metatab/numbering.py:285-290 | a positive number has at least one digit |
| Numbering.Decode | metatab/numbering.py:270-290 | reference definition, no contract of its own: a string read in base 62 over the alphabet, the inverse that Numbering.DecodeDigits and Numbering.Encode prove the encoding against |
| Numbering.DecodeDigits | metatab/numbering.py:285-290 | the digits of n read back in base 62 as n |
| Numbering.DigitsNoLeadingZero | metatab/numbering.py:285-290 | a positive number's digits do not start with '0' |
| Numbering.Encode | metatab/numbering.py:270-290 | base62_encode uses only the alphabet, gives "0" exactly for 0, has no leading zero otherwise, and reads back as the number |
| Numbering.Reversed | metatab/numbering.py:289 | reversal keeps the length |
| Numbering.Base62Encode | metatab/numbering.py:281-290 | the loop's result is the base-62 encoding of the number |
| Numbering.RJust | metatab/numbering.py:329 | rjust pads on the left with the fill character to the width and keeps a longer string whole |
| Numbering.EncodeDataset | metatab/numbering.py:281-290 | a missing dataset encodes to the empty string, any number to a non-empty one |
| Numbering.DsStr | metatab/numbering.py:325-329 | an unknown assignment class raises KeyError |
| Numbering.RevStr | metatab/numbering.py:293-302 | no revision or revision 0 gives '' and any other revision fails |
| Numbering.NewTopNumber | metatab/numbering.py:312-323 | a space longer than one character raises ValueError; otherwise the number keeps its fields |
| Numbering.ClassWidths | metatab/numbering.py:235-240 | the class widths are 3, 5, 7 and 9 |
| Numbering.DecodeLeadingZeros | metatab/numbering.py:329 | the '0' padding does not change the value read |
| Numbering.DsStrPads | metatab/numbering.py:325-329 | _ds_str is at least the class width, ends with the encoding and reads back as the dataset |
| Numbering.NoDatasetIsZeros | metatab/numbering.py:347-353 | a number without a dataset is all zeros, 'd000000000' for the class self |
| Numbering.DatasetNumberStr | metatab/numbering.py:347-353 | str(DatasetNumber) prints exactly for a known class and no revision, as 'd' followed by the padded dataset; a known class with a revision raises AttributeError |
| Numbering.TopNumberStr | metatab/numbering.py:325-332 | str(TopNumber) prints exactly for a known class and no revision, as the space followed by the padded dataset |
| Numbering.Constant.constructor | metatab/numbering.py:198-207 | a Constant starts with no bindings |
| Numbering.Constant.SetAttr | metatab/numbering.py:204-207 | rebinding a name raises ConstError and changes nothing; a new name is bound and every other binding kept |
| MetapackCli.MapNonWord | metatab/cli/metapack.py:544 | each character that is not a word character becomes '_', every other one stays |
| MetapackCli.Collapse | metatab/cli/metapack.py:544 | after collapsing no two '_' are adjacent, and the first and last characters are kept |
| MetapackCli.CollapseLowerWord | metatab/cli/metapack.py:544 | collapsing keeps a string of lower-case word characters so |
| MetapackCli.CollapseNoRuns | metatab/cli/metapack.py:544 | a string without runs of '_' is unchanged by the collapse |
| MetapackCli.RStripUnderscore | metatab/cli/metapack.py:544 | rstrip('_') gives a prefix that does not end in '_', and leaves a string not ending in '_' alone |
| MetapackCli.AltColName | metatab/cli/metapack.py:538-542 | a missing or empty name becomes `col<i>` |
| MetapackCli.LowerMapped | metatab/cli/metapack.py:544 | the mapped, lower-cased name is made of lower-case word characters |
| MetapackCli.AltColShape | metatab/cli/metapack.py:538-544 | a cleaned name has only lower-case letters, digits and single '_', and does not end in '_' |
| MetapackCli.AltColIdempotent | metatab/cli/metapack.py:538-544 | a name alt_col_name has already cleaned comes back unchanged |
| MetapackCli.UnderscoresVanish | metatab/cli/metapack.py:541-544 | a name of only '_' cleans to the empty string rather than to `col<i>` |
| MetapackCli.StripNumber | metatab/cli/metapack.py:473 | removing the trailing number gives a prefix, and a name not ending in a digit is kept whole |
| MetapackCli.DedupName | metatab/cli/metapack.py:472-478 | a name not yet seen is kept |
| MetapackCli.DedupFirstFree | metatab/cli/metapack.py:472-478 | a seen name becomes its base with the first unused suffix among -1 … -19, which is then unseen |
| MetapackCli.DedupExhausted | metatab/cli/metapack.py:475-478 | when all nineteen suffixes are taken the name ends as `-19`, though it is already seen |
| MetapackCli.StripNumberDash | metatab/cli/metapack.py:473-476 | the base of `name-i` is `name` again, so its own numbering starts at -1 |
| MetapackCli.SeenNames.constructor | metatab/cli/metapack.py:457 | the seen set starts as the caller's set |
| MetapackCli.SeenNames.Choose | metatab/cli/metapack.py:472-480 | the chosen name is the deduplicated one and it is added to the seen set |
| MetapackCli.ClassifyFormat | metatab/cli/metapack.py:336-348 | DataFile exactly for a data format, Documentation exactly for a document format, Resource for anything else |
| MetapackCli.TypeMapEntries | metatab/cli/metapack.py:568-574 | float, int, str and bytes map to number, integer, string and text |
| MetapackCli.TypeMapOthers | metatab/cli/metapack.py:568-574 | no other type name is in the map |
| MetaAws.SplitBucketName | metapack/cli/metaaws.py:415-425 | with a '/', the bucket before the first '/' and the rest as prefix; without one, the bucket and the default |
| MetaAws.PrefixKeepsSlashes | metapack/cli/metaaws.py:417 | only the first '/' splits, so the prefix keeps every later '/' |
| MetaAws.UserName | metapack/cli/metaaws.py:371 | the user name is the last '/'-separated part of the principal: it ends the principal and holds no '/' |
| MetaAws.Grants | metapack/cli/metaaws.py:370-372 | each principal's user gets the permission on the prefix, in order |
| MetaAws.BlockEntries | metapack/cli/metaaws.py:366-375 | a Sid's assignments all carry the permission's initial and the prefix; a Sid without Principal AWS is a KeyError |
| MetaAws.InnerEntries | metapack/cli/metaaws.py:363-375 | the only failure of the loop over directories is a KeyError |
| MetaAws.OuterEntries | metapack/cli/metaaws.py:362-375 | the only failure of the loop over permissions is a KeyError |
| MetaAws.BucketPolicySpec | metapack/cli/metaaws.py:351-377 | bucket_policy_to_dict fails only with the KeyError of a read or write Sid without a Principal AWS entry |
| MetaAws.InnerErrStays | metapack/cli/metaaws.py:363-375 | a KeyError at some directory ends the loop with a KeyError |
| MetaAws.OuterErrStays | metapack/cli/metaaws.py:362-375 | a KeyError at some permission ends the loop with a KeyError |
| MetaAws.InnerPrefix | metapack/cli/metaaws.py:363 | the assignments for the first directories come first |
| MetaAws.BucketPolicyToDict | metapack/cli/metaaws.py:351-377 | the result is exactly BucketPolicySpec of the statements |
| MetaAws.RwLoop | metapack/cli/metaaws.py:362-375 | the loop over permissions builds the dict of the assignments OuterEntries lists |
| MetaAws.DirsLoop | metapack/cli/metaaws.py:363-375 | the loop over directories fails exactly when InnerEntries does, and otherwise adds its assignments |
| MetaAws.DirStep | metapack/cli/metaaws.py:364-375 | one directory fails exactly when its Sid block does, and otherwise adds its assignments |
| MetaAws.GrantAll | metapack/cli/metaaws.py:370-372 | the innermost loop adds every principal's assignment in order |
| MetaAws.UpdateFrom | metapack/cli/metaaws.py:372 | each pair of the result comes from the old dict or from the assignments |
| MetaAws.UpdateAllSame | metapack/cli/metaaws.py:372 | a key every assignment gives the value v ends with v |
| MetaAws.InnerShape | metapack/cli/metaaws.py:363-375 | every assignment of the inner loop carries the permission's initial and one of the directories |
| MetaAws.OuterShape | metapack/cli/metaaws.py:362-375 | every assignment of the outer loop carries a directory and the initial of one of the permissions |
| MetaAws.BucketValues | metapack/cli/metaaws.py:351-377 | every value of the result is 'R' or 'W', on one of the three top-level directories |
| MetaAws.InitialIsLetter | metapack/cli/metaaws.py:372 | `rw[0]` of 'Read' and 'Write' is 'R' or 'W' |
| MetaAws.WriteWins | metapack/cli/metaaws.py:362-372 | a user that a directory's Write Sid names ends with 'W' there, whatever the Read Sid says |
| MetaAws.OuterLastWins | metapack/cli/metaaws.py:362-372 | the last permission wins for every user its Sid names |
| MetaAws.InnerLast | metapack/cli/metaaws.py:363-375 | the last directory's block comes after the others |
| MetaAws.BlockHasKey | metapack/cli/metaaws.py:370-372 | a Sid's block assigns every user it names |
| MetaAws.InnerHasKey | metapack/cli/metaaws.py:363-375 | the loop over directories assigns every user that a directory's Sid names |
| MetaAws.InnerSame | metapack/cli/metaaws.py:364-366 | the loop over directories reads only the Sids of those directories |
| MetaAws.OuterSame | metapack/cli/metaaws.py:362-366 | the loop over permissions reads only the Sids of the permissions and directories |
| MetaAws.OtherSidIgnored | metapack/cli/metaaws.py:358-366 | a statement whose Sid is none of the six with a Read or Write prefix changes nothing |
| MetaAws.GetStatement | metapack/cli/metaaws.py:237-240 | the statement found has the Sid asked for; none is found only when no statement has it |
| MetaAws.ResourceKey | metapack/cli/metaaws.py:243-244 | the bucket of a resource key holds no '/' |
| MetaAws.KeyedItems | metapack/cli/metaaws.py:242-249 | one assignment per entry, all with the permission; a resource that does not split in two is a ValueError |
| MetaAws.KeyedErrStays | metapack/cli/metaaws.py:242-249 | a ValueError at some entry ends the loop with it |
| MetaAws.FindStatement | metapack/cli/metaaws.py:237-240 | the loop returns the statement GetStatement gives |
| MetaAws.AssignLoop | metapack/cli/metaaws.py:242-249 | the loop fails with ValueError exactly when the entries do, and otherwise adds their assignments in order |
| MetaAws.UserPolicySpec | metapack/cli/metaaws.py:227-253 | user_policy_to_dict raises TypeError exactly when there is no read statement, and otherwise fails only with KeyError or ValueError |
| MetaAws.UserPolicyToDict | metapack/cli/metaaws.py:227-253 | the result is exactly UserPolicySpec of the statements |
| MetaAws.UserWriteWins | metapack/cli/metaaws.py:242-249 | a resource of the write statement ends with 'W', even when the read statement names it |
| MetaAws.NoWriteAllRead | metapack/cli/metaaws.py:246-251 | without a write statement every value is 'R' |
| MetaAws.NoReadFails | metapack/cli/metaaws.py:242 | a policy without a read statement fails with TypeError on `None['Principal']` |

## Left out

- Reading rows are inputs, not I/O:
  - Rows are given, not read. This covers CSV files, URLs, spreadsheets, the
    CSV readers of python/metatab/parser.py:136-237, the file-opening
    fallbacks of metatab/generate.py:44-70 and js/metatab.js's `generateRows`
    and `parse`, which use Papa.parse and callbacks.
  - A parse is given a table from reference to rows (`Parser.Src`,
    `LegacyTerms.Generate`) in place of the file system.
  - The probing of `find_declare_doc` (metatab/parser.py:208-242) is a given
    table from name to reference.
  - A Declare document in the older interpreter and the Serializer is the
    parameter `load`.
  - slugify in `_generate_identity_name` is the parameter `slug`.
- Fuel bounds, which the source does not have:
  - Parser.Parse and LegacyTerms.Generate: include and Declare documents
    nested deeper than the fuel given end in `Err(RecursionLimit)` or in
    `Gen([], Some(RecursionLimit))`. The source recurses until Python's
    recursion limit, and has no cycle guard for a document that includes
    itself through another.
  - Parser.InheritFrom: the walk over a section's term list is bounded by
    the fuel 2*|terms|+1 that `Parser.InheritPlan` gives it. At that bound it
    ends in `Err(Unsupported)`. That this fuel always suffices is not
    proved: the list can grow while the loop runs (metatab/parser.py:488-521).
  - TermParserClass.InheritLoop: the same bound, in the loop that is
    proved equal to `Parser.InheritFrom`, so the same gap.
- A parse that raises, in the parser of metatab/parser.py. `TermParser.__iter__`
  (metatab/parser.py:371-466) has already yielded the terms before the
  exception, and a consumer such as load_terms has already taken them. The
  model gives only `Err(e)` and drops them:
  - Parser.GenRows: an error in one row drops the table and output of the
    rows before it;
  - Parser.ParseFrom: a parse that raises keeps none of the terms yielded
    before the exception;
  - Parser.Parse: the same, for a parse from the root document;
  - TermParserClass.TermParser.Iterate: equal to Parser.ParseFrom, so the
    same loss;
  - TermParserClass.RunParse: equal to Parser.ParseFrom, so the same loss;
  - TermParserClass.GenerateRows: equal to Parser.GenRows, so the same loss.
- Parser.IncludeStep: the parser's `errors` set (metatab/parser.py:70) is not
  modelled. An IncludeError is added to it at metatab/parser.py:465 before
  it is raised again; the model keeps only the raised error.
- Doc.MetatabDoc.LoadTerms: `self.errors = terms.errors_as_dict()`
  (metatab/doc.py:688-690) is not modelled, since the parser's error set is
  not.
- Terms.SetItem: every term is taken to belong to a document, as
  `assert doc is not None` (metatab/terms.py:648) demands of section terms.
  For a term without one, the removal in `__setitem__` raises AttributeError
  at `self.doc.remove_term(child)` (metatab/terms.py:190); the model always
  gives `Err(ValueError)` for a removal.
- TermParserClass.TermParser.constructor: the resolver is the table
  `Parser.Src` that Iterate is given, so it is always there. The source asserts
  `self.resolver is not None` (metatab/parser.py:52); a parser without a
  resolver is not modelled.
- Parser.Attach: a parent that comes after its child in the term table is
  `Err(Unsupported)`. In the source it makes a cycle in the term objects
  (see the first-column finding). The table keeps children after their
  parents, so that every walk down the tree ends.
- Text:
  - `lower()`, `title()`, `\w` and `\s` are modelled for ASCII only: no
    Unicode case mapping or Unicode word characters.
  - `strip()` uses Python's ASCII whitespace set, and JavaScript's `trim()`
    its own set, also ASCII only.
- JavaScript numbers are integers.
- JsFlatten.ToNumber: the string-to-number conversion of `==` handles only
  optionally signed decimal integers. "1.0", "1e3" and "Infinity" are NaN
  here, so a loose comparison that would hold in JavaScript does not.
- JsMetatab: the declare branch of `run` (js/metatab.js:257-264) and the
  object literal of `installDeclareTerms` (js/metatab.js:203-208) are not
  valid JavaScript. Neither is part of this model, so `run` handles only
  elision, Section terms and the parameter-map rename.
- Numbering:
  - Numbering.Encode: numbers are natural numbers. base62_encode of a
    negative number never ends in the source (`while num` with Python's
    floor division), and is not part of this model.
  - `_rev_str` for a truthy revision is only its AttributeError (metatab/numbering.py:299-301).
  - The bottle server, redis plugin and `request_delay` of metatab/numbering.py
    are not part of this model.
- MetaAws.SplitBucketName: `default` is an optional string, with None
  standing for both None and `False`. A default that compares equal to
  `False` without being it, such as `0`, is not modelled: the source would
  give None for it.
- MetaAws: JSON decoding of the policy text; the boto3 calls and every other
  command of metapack/cli/metaaws.py.
- MetaAws.BySid: every statement has a Sid. A statement without one raises
  KeyError at `s['Sid']` in bucket_policy_to_dict and get_statement
  (metapack/cli/metaaws.py:237-240, 358); that is not modelled.
- MetaAws.BlockEntries: a Principal is a dict with an optional AWS entry. The
  policy form `"Principal": "*"`, on which `['AWS']` raises TypeError, is not
  modelled.
- MetapackCli:
  - the name of a resource (`extract_path_name`) and its format are inputs;
  - the sha1 fallback for an empty name, and the rest of the command-line
    handlers, are not part of this model.
- Builder:
  - values are single string cells;
  - `load_declaration` is the given declaration dicts;
  - `write_csv` is not part of this model;
  - `Section.__setattr__` (metatab/builder.py:93-95) is not part of this
    model. Line 94 is a Python 2 `print` statement, so builder.py loads only
    under Python 2, whose dicts are unordered; the model nonetheless keeps
    every dict of terms and properties in insertion order, and the order of
    the rows depends on that.
- Parser.SectionTakes: the registration of a term with its section leaves
  out the call to `doc.add_term` that SectionTerm.add_term makes
  (metatab/terms.py:703), since the parser model has no document.
  `Doc.MetatabDoc.SectionAddTerm` models that call.
- Doc:
  - Doc.MetatabDoc.constructor: the document is built as the branch with a
    ref leaves it, with no root yet. Without a ref, `__init__` creates the
    root section, and that call raises TypeError
    (`Doc.RootSectionCallRaises`); that path is stated by the lemma only.
  - Doc.MetatabDoc.DelItem: when removing one of the section's terms raises
    ValueError, the source keeps the removals already made; the contract
    states only that the sections are unchanged and the error is ValueError,
    not which terms remain.
  - `find` with a nested list of names (a list inside the list) is not
    modelled; a list of strings is.
  - The resource, HTML, Markdown, cleanse and update_name parts of
    metatab/doc.py are not part of this model.
- LegacyInterp.AsProp: a declared `childpropertytype` or `termvaluename`
  that is not a string (python/metatab/parser.py:483-488) is read as the
  empty string; the source puts the value itself on the term.
- Term attribute access through `__getattr__` and `__setattr__`
  (metatab/terms.py:318-367) is modelled as explicit accessors.
  `get_term_class` is a tag lookup.
- Term objects that share a list: the arena gives each term its own children
  list. Two terms that share one list object are not modelled.
- Dict iteration order is always insertion order (Python 3.7 and later, and
  JavaScript string keys).
- JsFlatten: objects whose keys are array indices are visited in the
  for-in order that `JsOrder` gives. Symbols and prototype properties are not
  modelled.
- Logging, `print`, warnings and exception messages; only the exception's
  class is kept.

## Findings

| source | as written | input that shows it | evidently intended | confidence | as-written member | corrected member |
|---|---|---|---|---|---|---|
| metatab/parser.py:444-453 | the term is registered in `last_term_map` under its record name before its parent is looked up | a first-column term `Foo.Foo` after an earlier `Foo` finds itself as parent; the step is `Parser.FirstColumn` | look the parent up first, as link_terms in python/metatab/parser.py:356-386 does, so that `Foo.Foo` becomes the child of the earlier `Foo` | not executed | ParserProps.SelfParentFinding | Parser.FirstColumnIntended |
| python/metatab/parser.py:531 | a DeclareSection's args are the values of its `int` keys; a converted dict has only string keys | `{'section_name': 'contacts', '0': 'email', '1': 'org'}` gets args `[]` (`LegacyInterp.SectionArgsFinding`) | the values of the keys that read as integers, in the order of those integers | not executed | LegacyInterp.ImportNoArgs | LegacyInterp.ArgsByIndexOrdered |
| python/metatab/parser.py:540-551 | the existing section is looked up under the name as written; a term is listed after testing whether the section's name is in the term list | two DeclareTerms in section `Contacts`: the section is re-created for the second, and only the second term stays listed | look the section up lower-cased, and test the term's name | not executed | LegacyInterp.SectionTermsFinding | LegacyInterp.TermStepFiled |
| metatab/doc.py:456-467 | remove_term takes the term out of `terms`. It then calls the section's remove_term, which calls back into the document's remove_term, so the second `terms.remove(t)` raises ValueError | removing a root-level term that has a section | take the term out of the list, out of its section and away from its parent, once each | not executed | Doc.MetatabDoc.RemoveTermAsWritten | Doc.MetatabDoc.RemoveTerm |
| metatab/doc.py:545-555 | a keyword argument is tested with `t.get(k) == v`. Term.get returns the child term (metatab/terms.py:370-376), not its value, so it never equals a string | `find('Root.Table', name='foo')` returns nothing | keep the found terms whose named properties have the given values | not executed | Doc.FindKwStringMatchesNothing | Doc.FindKwIntendedExact |
| js/test/flatten.js:63 | values are compared with `!=`, and two distinct empty arrays are never `==` | `compareDict({x: []}, {x: []})` reports `Different: x:  <> ` | a value is never different from itself | not executed | JsFlatten.SelfCompareReportsEmpty | JsFlatten.CorrectedSelfCompare |
