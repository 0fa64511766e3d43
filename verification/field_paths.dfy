/** `Field.fieldPath`: the dotted name of a field, derived from the
    current `parent` pointers each time it is read. */
module FieldPaths {
  import opened DottedPath
  import opened FormTree

  /** The path segments `x` hands down to the nodes below it: the names of
      the named Fields on its `parent` chain, root first, ending with `x`'s
      own name when `x` is a named Field. Gaps add nothing and do not stop
      the walk. */
  function Scope(t: Tree, ghost r: Ranking, x: Id): (s: seq<string>)
    requires WellFormed(t, r) && x in t.nodes
    ensures forall i :: 0 <= i < |s| ==> s[i] != ""
    ensures IsNamedField(t, x) ==> |s| >= 1 && s[|s| - 1] == t.nodes[x].name
    decreases r.height - r.rank[x]
  {
    (if x in t.parent then Scope(t, r, t.parent[x]) else [])
      + (if IsNamedField(t, x) then [t.nodes[x].name] else [])
  }

  /** The `fieldPath` getter: `""` for a field without a name, whatever
      its ancestors; otherwise the dotted join of its scope. */
  function FieldPath(t: Tree, ghost r: Ranking, x: Id): (path: string)
    requires WellFormed(t, r) && IsField(t, x)
    ensures path == "" <==> t.nodes[x].name == ""
    ensures x !in t.parent ==> path == t.nodes[x].name
    ensures var w := t.nodes[x].name; |w| <= |path| && path[|path| - |w|..] == w
  {
    if t.nodes[x].name == "" then ""
    else
      var s := Scope(t, r, x);
      JoinEmpty(s);
      JoinEndsWithLast(s);
      Join(s)
  }

  /** The `parent` chain of `x`, from its root down to `x` itself. */
  ghost function Ancestors(t: Tree, r: Ranking, x: Id): (chain: seq<Id>)
    requires WellFormed(t, r) && x in t.nodes
    ensures |chain| >= 1 && chain[|chain| - 1] == x && chain[0] !in t.parent
    ensures forall i :: 0 <= i < |chain| ==> chain[i] in t.nodes
    ensures forall i :: 0 < i < |chain| ==> chain[i] in t.parent && t.parent[chain[i]] == chain[i - 1]
    decreases r.height - r.rank[x]
  {
    (if x in t.parent then Ancestors(t, r, t.parent[x]) else []) + [x]
  }

  /** The names of the named Fields among `ids`, in order. */
  ghost function NamedFieldNames(t: Tree, ids: seq<Id>): seq<string>
    requires forall i :: 0 <= i < |ids| ==> ids[i] in t.nodes
  {
    if |ids| == 0 then []
    else
      var last := ids[|ids| - 1];
      NamedFieldNames(t, ids[..|ids| - 1]) + (if IsNamedField(t, last) then [t.nodes[last].name] else [])
  }

  /** The scope of a node is the list of names of the named Fields on its
      ancestor chain, the node included. */
  lemma {:induction false} ScopeIsNamedAncestors(t: Tree, r: Ranking, x: Id)
    requires WellFormed(t, r) && x in t.nodes
    ensures Scope(t, r, x) == NamedFieldNames(t, Ancestors(t, r, x))
    decreases r.height - r.rank[x]
  {
    var own := if IsNamedField(t, x) then [t.nodes[x].name] else [];
    var above := if x in t.parent then Ancestors(t, r, t.parent[x]) else [];
    var chain := Ancestors(t, r, x);
    assert chain == above + [x];
    assert NamedFieldNames(t, chain) == NamedFieldNames(t, above) + own by {
      assert chain[..|chain| - 1] == above;
    }
    if x in t.parent {
      ScopeIsNamedAncestors(t, r, t.parent[x]);
    }
  }

  /** A named field's path is the dotted join of the names of the named
      Fields from the root down to it, gaps skipped. */
  lemma FieldPathJoinsNamedAncestors(t: Tree, r: Ranking, x: Id)
    requires WellFormed(t, r) && IsNamedField(t, x)
    ensures FieldPath(t, r, x) == Join(NamedFieldNames(t, Ancestors(t, r, x)))
  {
    ScopeIsNamedAncestors(t, r, x);
  }

  /** When no name on the way contains a dot, splitting a field's path at
      the dots gives back its scope. */
  lemma FieldPathSplits(t: Tree, r: Ranking, x: Id)
    requires WellFormed(t, r) && IsNamedField(t, x)
    requires DotFree(Scope(t, r, x))
    ensures Split(FieldPath(t, r, x)) == Scope(t, r, x)
  {
    SplitJoin(Scope(t, r, x));
  }

  /** `add(c)` on `p` changes the scope only of nodes whose `parent` chain
      passes through `c`. */
  lemma {:induction false} ScopeFrame(t: Tree, r: Ranking, p: Id, c: Id, r2: Ranking, y: Id)
    requires WellFormed(t, r) && p in t.nodes && c in t.nodes && WellFormed(Link(t, p, c), r2)
    requires y in t.nodes && !OnChain(t, r, c, y)
    ensures Scope(Link(t, p, c), r2, y) == Scope(t, r, y)
    decreases r.height - r.rank[y]
  {
    if y in t.parent {
      ScopeFrame(t, r, p, c, r2, t.parent[y]);
    }
  }

  /** After `p.add(c)` the scope of `c` continues the scope of `p`. */
  lemma AddSetsScope(t: Tree, r: Ranking, p: Id, c: Id, r2: Ranking)
    requires WellFormed(t, r) && p in t.nodes && c in t.nodes && !Reaches(t, r, c, p)
    requires WellFormed(Link(t, p, c), r2)
    ensures Scope(Link(t, p, c), r2, c)
         == Scope(t, r, p) + (if IsNamedField(t, c) then [t.nodes[c].name] else [])
  {
    if OnChain(t, r, c, p) {
      OnChainReaches(t, r, c, p);
    }
    ScopeFrame(t, r, p, c, r2, p);
  }

  /** `fieldPath` follows the most recent `add`: after `p.add(c)` a named
      field `c` has the path of `p`'s scope followed by its own name, and an
      unnamed one still has `""`. */
  lemma AddSetsFieldPath(t: Tree, r: Ranking, p: Id, c: Id, r2: Ranking)
    requires WellFormed(t, r) && p in t.nodes && IsField(t, c) && !Reaches(t, r, c, p)
    requires WellFormed(Link(t, p, c), r2)
    ensures FieldPath(Link(t, p, c), r2, c)
         == if t.nodes[c].name == "" then "" else Join(Scope(t, r, p) + [t.nodes[c].name])
  {
    AddSetsScope(t, r, p, c, r2);
  }

  /** ... and leaves the path of every field outside `c`'s subtree alone. */
  lemma AddKeepsOtherFieldPaths(t: Tree, r: Ranking, p: Id, c: Id, r2: Ranking, y: Id)
    requires WellFormed(t, r) && p in t.nodes && c in t.nodes && WellFormed(Link(t, p, c), r2)
    requires IsField(t, y) && !OnChain(t, r, c, y)
    ensures FieldPath(Link(t, p, c), r2, y) == FieldPath(t, r, y)
  {
    ScopeFrame(t, r, p, c, r2, y);
  }
}
