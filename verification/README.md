# Form tree of mega-form, modelled in Dafny

mega-form describes a form as a tree. A `FormElement` is a named node with
an ordered `children` list and a `parent` pointer. A `Field` is a
`FormElement` that also carries a value `type`, an `options` list and a
`prototype` node. `add(child)` links a child in. Two queries run over the
tree:

- `fieldPath` is a field's dotted name, built from the named fields above it.
- `find` / `findField` resolve a dotted string, or an array of segments,
  to a field below the receiver.

The library's implementation (`src/form`) is not part of this model. The
model follows the behaviour that `test/field.spec.ts` asserts.

## How the model is built

- `FormTree` holds the tree as a value. `Tree` is a node store indexed by
  ids, with a `parent` map and a `children` map kept separately, because
  the two can disagree. `Link` is what `add` does to the store.
  `WellFormed` holds when every parent pointer is backed by a children
  entry and a `Ranking` strictly decreases along children entries, which
  means the tree has no cycle.
- `FieldPaths` defines `Scope`, the named-field names from the root down
  to a node. `FieldPath` is the dotted join of the scope, or `""` for a
  field without a name.
- `Lookup` defines the search for one segment (`ResolveAmong`, `Resolve`).
  It is a depth-first, pre-order walk over the children lists in insertion
  order. A named field is a candidate and the walk does not enter it. Any
  other node is a gap and the walk passes through it. The first candidate
  with the wanted name wins. `Walk` / `Locate` resolve the segments one
  after another. The tests leave two choices open, and this model fixes
  them:
  - the search does not descend through named fields;
  - the first match in pre-order wins when names repeat.
  No lemma depends on any other rule.
- `Forms.Form` is the mutable side. It is a class whose `tree` is changed
  in place by the node constructors and by `Add`. `Find` is a method with
  a loop over the segments, proved equal to `Locate`. `FindField` has no
  loop of its own: it calls `Find`.
- `DottedPath` defines `Split` and `Join` on `.`, with the JavaScript
  meaning (`"".split('.')` is `[""]`).

`find('')` is `null` because `''` splits to `[""]` and an empty segment
never names a candidate. `find([])` is `null` because `Locate` treats an
empty list of segments separately. The dotted form and the array form
agree, the empty locator included: `DottedMatchesSegments`.

## Model

| member | source | states |
|---|---|---|
| Forms.Form.NewField | test/field.spec.ts:8-14 | a new field stores its type, its name and the very options list it was given, with no prototype, no parent and no children; nothing else in the store changes |
| Forms.Form.NewPrototypeField | test/field.spec.ts:16-22 | a new field stores its type, its name and the given prototype node, with an empty options list, no parent and no children |
| Forms.Form.NewElement | test/field.spec.ts:83-85 | a new plain element stores its name, with no parent and no children |
| Forms.Form.Add | test/field.spec.ts:56-76 | the store becomes `Link(old store, p, c)` (`FormTree.Link`, the store effect of `add`): `c` is appended to `p`'s children and its parent becomes `p`. `c`'s scope, which its `fieldPath` joins, continues `p`'s scope. The store stays acyclic |
| FormTree.Rerank | test/field.spec.ts:181-189 | adding a node below one it does not reach leaves the children relation acyclic: a new ranking exists |
| FormTree.LinkKeepsConsistent | test/field.spec.ts:52-58 | adding a node that has no parent keeps every children entry matched by the child's parent pointer |
| FormTree.ReparentBreaksConsistency | test/field.spec.ts:64-66 | re-adding a node under a different parent leaves it in the old parent's children list, so the two links disagree |
| FieldPaths.Scope | test/field.spec.ts:38-40 | every segment of a scope is non-empty, and a named field's scope ends with its own name |
| FieldPaths.FieldPath | test/field.spec.ts:31-40 | computed with `DottedPath.Join` over the scope, which `FieldPathJoinsNamedAncestors` characterises. Its contract: a path is `""` exactly when the field's own name is empty, whatever its ancestors. A root field's path is its name, and every path ends with the field's name |
| FieldPaths.ScopeIsNamedAncestors | test/field.spec.ts:81-95 | a scope is the list of names of the named fields on the parent chain, root first. Unnamed fields and plain elements are skipped without breaking the chain |
| FieldPaths.FieldPathJoinsNamedAncestors | test/field.spec.ts:88-94 | a named field's path is the dotted join of the names of the named fields from its root down to itself |
| FieldPaths.FieldPathSplits | test/field.spec.ts:60 | when no name contains a dot, splitting a path at the dots gives back the field's scope |
| FieldPaths.AddSetsFieldPath | test/field.spec.ts:64-78 | after `p.add(c)`, `c`'s path is `p`'s scope followed by `c`'s name, or `""` when `c` has no name, whatever parent `c` had before |
| FieldPaths.AddKeepsOtherFieldPaths | test/field.spec.ts:64-70 | `add` leaves the path of every field outside the added node's subtree unchanged |
| DottedPath.Split | test/field.spec.ts:127-131 | a split has at least one piece, and no piece contains a dot |
| DottedPath.JoinSplit | test/field.spec.ts:109-113 | joining the pieces of a split gives the string back |
| DottedPath.SplitJoin | test/field.spec.ts:127-131 | splitting the join of dot-free pieces gives the pieces back |
| DottedPath.JoinAppend | test/field.spec.ts:60 | joining two non-empty lists puts exactly one dot between their joins |
| Lookup.ResolveAmong | test/field.spec.ts:146-160 | a segment resolves only to a named field whose name is that segment |
| Lookup.Resolve | test/field.spec.ts:146-160 | the search for one segment among a node's children, through gaps: a result is a named field carrying that segment as its name |
| Lookup.Walk | test/field.spec.ts:127-131 | resolving a non-empty list of segments ends, if anywhere, at a named field named by the last segment |
| Lookup.Locate | test/field.spec.ts:121-125 | an empty list of segments finds nothing, and a result is a named field carrying the last segment's name |
| Lookup.FirstNamed | test/field.spec.ts:179-189 | the first entry with the wanted name: nothing exactly when no entry has it, otherwise the earliest entry that does |
| Lookup.ResolveAmongIsFirstMatch | test/field.spec.ts:169-190 | the search returns the first candidate, in depth-first pre-order through gaps, that carries the wanted name |
| Lookup.FrontierMembers | test/field.spec.ts:246-266 | the candidates of a search are exactly the named fields that hang below the receiver through gaps only |
| Lookup.ResolveFindsThroughGaps | test/field.spec.ts:191-195 | a segment resolves exactly when some field with that name hangs below the receiver through any number of gaps |
| Lookup.WalkCompose | test/field.spec.ts:233-237 | looking up `a + b` is looking up `a`, then `b` from its result |
| Lookup.LocateFailsAtMissingSegment | test/field.spec.ts:197-225 | a lookup is `null` exactly when some segment, whether first, middle or last, finds nothing below the node the earlier segments led to |
| Lookup.DottedMatchesSegments | test/field.spec.ts:109-131 | a dotted locator and the array of its dot-free segments find the same field, for the empty list and `''` too |
| Lookup.FoundFieldPath | test/field.spec.ts:127-131 | when children lists and parent pointers agree, the found field's path is the receiver's scope followed by the segments |
| Lookup.FoundBelowNamedField | test/field.spec.ts:101-131 | from a named field, the found field's path is the receiver's path, a dot, and the dotted locator |
| Forms.Form.Find | test/field.spec.ts:109-143 | the segment loop returns exactly `Locate` of the locator's segments, which `Lookup.Parts` takes from a dotted string by `Split` or from an array as given; `find('')` and `find([])` are `null` |
| Forms.Form.FindField | test/field.spec.ts:156-166 | `findField` returns exactly what `find` returns |

## Left out

- The test harness (`describe`, `it`, `expect`, test/field.spec.ts:1-2) is not modelled. It only drives the tests.
- `Option` is the empty class `FormTree.Choice`, because the tests use options only as distinct objects. A field's `type` is a plain string with no meaning attached.
- An omitted `type` (`new Field` with no arguments, test/field.spec.ts:171) is modelled as `""`.
- The third `Field` constructor argument is chosen by its runtime shape in the source. The model has two constructors instead, `NewField` and `NewPrototypeField`. Omitting the name while passing options or a prototype is not modelled, because no test does it.
- Objects are ids into one store. The options list is stored as the same sequence value. Aliasing of the JavaScript array object is not modelled: a later change to that array is not seen through the field.
- Cycles are excluded by `Forms.Form.Add`'s precondition that the child does not already reach the parent. The source performs no check, and no test builds a cycle.
- A prototype's subtree is not linked into the tree, and the search does not enter it. No test relies on either.
- Whether a search may descend through a named field, and which duplicate wins, are not fixed by the tests. The model picks the rule above. `ResolveAmongIsFirstMatch` states that rule, and no other lemma depends on which duplicate is chosen.
- Forms.Form.Add: its contract states the new scope of the added node. That paths outside the added subtree do not change is proved about `Link` (`AddKeepsOtherFieldPaths`) and not repeated in the method's contract.
- Lookup.FoundFieldPath: the link between `find` and `fieldPath` is proved only for trees whose children lists and parent pointers agree. After reparenting, `find` follows the stale children lists, and no relation is claimed.
