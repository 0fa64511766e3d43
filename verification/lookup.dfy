/** `Field.find` / `Field.findField`: resolving a locator, segment by
    segment, to a Field below the receiver.

    One segment is resolved by a depth-first, pre-order search of the
    current node's `children` lists in insertion order. A named Field is a
    candidate: it is the answer when its name is the segment, and the
    search does not enter it otherwise. Every other node (a plain element,
    or a Field with an empty name) is a gap: the search passes through it
    into its children. The first candidate met wins. */
module Lookup {
  import opened Wrappers
  import opened DottedPath
  import opened FormTree
  import opened FieldPaths

  /** The argument of `find`: a dotted string or an array of segments. */
  datatype Locator = Dotted(path: string) | Segments(parts: seq<string>)

  function Parts(loc: Locator): seq<string>
  {
    match loc
    case Dotted(s) => Split(s)
    case Segments(ss) => ss
  }

  ghost predicate RankedBelow(t: Tree, r: Ranking, cs: seq<Id>, bound: nat)
    requires WellFormed(t, r)
  {
    forall i :: 0 <= i < |cs| ==> cs[i] in t.nodes && r.rank[cs[i]] < bound
  }

  /** The children of a node are ranked below it. */
  lemma ChildrenRanked(t: Tree, r: Ranking, x: Id)
    requires WellFormed(t, r) && x in t.nodes
    ensures RankedBelow(t, r, t.children[x], r.rank[x])
  {
    forall i | 0 <= i < |t.children[x]|
      ensures t.children[x][i] in t.nodes && r.rank[t.children[x][i]] < r.rank[x]
    {
      assert t.children[x][i] in t.children[x];
    }
  }

  /** Dropping the head of a ranked list keeps it ranked. */
  lemma RankedTail(t: Tree, r: Ranking, cs: seq<Id>, bound: nat)
    requires WellFormed(t, r) && RankedBelow(t, r, cs, bound) && |cs| > 0
    ensures RankedBelow(t, r, cs[1..], bound)
  {
    forall i | 0 <= i < |cs[1..]| ensures cs[1..][i] in t.nodes && r.rank[cs[1..][i]] < bound {
      assert cs[1..][i] == cs[i + 1];
    }
  }

  /** The search for one segment among the nodes `cs` and, through gaps,
      their descendants. */
  function ResolveAmong(t: Tree, ghost r: Ranking, cs: seq<Id>, s: string, ghost bound: nat): (m: Option<Id>)
    requires WellFormed(t, r) && RankedBelow(t, r, cs, bound)
    ensures m.Some? ==> IsNamedField(t, m.value) && t.nodes[m.value].name == s
    decreases bound, |cs|
  {
    if |cs| == 0 then None
    else
      var c := cs[0];
      if IsNamedField(t, c) then
        if t.nodes[c].name == s then Some(c) else ResolveAmong(t, r, cs[1..], s, bound)
      else
        match ResolveAmong(t, r, t.children[c], s, r.rank[c])
        case Some(y) => Some(y)
        case None => ResolveAmong(t, r, cs[1..], s, bound)
  }

  /** The search for one segment below `x`. */
  function Resolve(t: Tree, ghost r: Ranking, x: Id, s: string): (m: Option<Id>)
    requires WellFormed(t, r) && x in t.nodes
    ensures m.Some? ==> IsNamedField(t, m.value) && t.nodes[m.value].name == s
  {
    ResolveAmong(t, r, t.children[x], s, r.rank[x])
  }

  /** Resolves the segments one after the other; no segments leave `x`. */
  function Walk(t: Tree, ghost r: Ranking, x: Id, segs: seq<string>): (m: Option<Id>)
    requires WellFormed(t, r) && x in t.nodes
    ensures m.Some? ==> m.value in t.nodes
    ensures m.Some? && |segs| > 0 ==> IsNamedField(t, m.value) && t.nodes[m.value].name == segs[|segs| - 1]
    decreases |segs|
  {
    if |segs| == 0 then Some(x)
    else
      match Resolve(t, r, x, segs[0])
      case None => None
      case Some(y) => Walk(t, r, y, segs[1..])
  }

  /** One step of a walk from the `i`-th segment on. */
  lemma WalkStep(t: Tree, r: Ranking, x: Id, segs: seq<string>, i: nat)
    requires WellFormed(t, r) && x in t.nodes && i < |segs|
    ensures Walk(t, r, x, segs[i..])
         == match Resolve(t, r, x, segs[i]) case None => None case Some(y) => Walk(t, r, y, segs[i + 1..])
  {
    assert segs[i..][0] == segs[i] && segs[i..][1..] == segs[i + 1..];
  }

  /** What `find` returns for a list of segments: `null` for an empty list,
      otherwise a named Field carrying the last segment as its name. */
  function Locate(t: Tree, ghost r: Ranking, x: Id, segs: seq<string>): (m: Option<Id>)
    requires WellFormed(t, r) && x in t.nodes
    ensures |segs| == 0 ==> m == None
    ensures m.Some? ==> IsNamedField(t, m.value) && t.nodes[m.value].name == segs[|segs| - 1]
  {
    if |segs| == 0 then None else Walk(t, r, x, segs)
  }

  // ---------------------------------------------------------------------
  // A reference description of one search step: the candidates below a
  // node, in search order, and the first one with the wanted name.

  /** The named Fields reachable from `cs` through gaps only, in pre-order. */
  ghost function FrontierOf(t: Tree, r: Ranking, cs: seq<Id>, bound: nat): (f: seq<Id>)
    requires WellFormed(t, r) && RankedBelow(t, r, cs, bound)
    ensures forall i :: 0 <= i < |f| ==> IsNamedField(t, f[i])
    decreases bound, |cs|
  {
    if |cs| == 0 then []
    else
      var c := cs[0];
      (if IsNamedField(t, c) then [c] else FrontierOf(t, r, t.children[c], r.rank[c]))
        + FrontierOf(t, r, cs[1..], bound)
  }

  ghost function Frontier(t: Tree, r: Ranking, x: Id): seq<Id>
    requires WellFormed(t, r) && x in t.nodes
  {
    FrontierOf(t, r, t.children[x], r.rank[x])
  }

  /** The first of `ids` whose name is `s`. */
  ghost function FirstNamed(t: Tree, ids: seq<Id>, s: string): (m: Option<Id>)
    requires forall i :: 0 <= i < |ids| ==> ids[i] in t.nodes
    ensures m.None? <==> forall i :: 0 <= i < |ids| ==> t.nodes[ids[i]].name != s
    ensures m.Some? ==> exists k :: 0 <= k < |ids| && ids[k] == m.value && t.nodes[ids[k]].name == s
                          && forall j :: 0 <= j < k ==> t.nodes[ids[j]].name != s
  {
    if |ids| == 0 then None
    else if t.nodes[ids[0]].name == s then Some(ids[0])
    else
      var m := FirstNamed(t, ids[1..], s);
      assert forall i :: 1 <= i < |ids| ==> ids[i] == ids[1..][i - 1];
      m
  }

  lemma {:induction false} FirstNamedAppend(t: Tree, a: seq<Id>, b: seq<Id>, s: string)
    requires forall i :: 0 <= i < |a| ==> a[i] in t.nodes
    requires forall i :: 0 <= i < |b| ==> b[i] in t.nodes
    ensures FirstNamed(t, a + b, s) == if FirstNamed(t, a, s).Some? then FirstNamed(t, a, s) else FirstNamed(t, b, s)
    decreases |a|
  {
    if |a| == 0 {
      assert a + b == b;
    } else {
      var ab := a + b;
      assert ab[0] == a[0];
      if t.nodes[a[0]].name != s {
        var rest := a[1..];
        assert forall i :: 0 <= i < |rest| ==> rest[i] in t.nodes by {
          forall i | 0 <= i < |rest| ensures rest[i] in t.nodes { assert rest[i] == a[i + 1]; }
        }
        FirstNamedAppend(t, rest, b, s);
        assert ab[1..] == rest + b;
        assert forall i :: 0 <= i < |ab| ==> ab[i] in t.nodes;
        assert FirstNamed(t, ab, s) == FirstNamed(t, ab[1..], s);
        assert FirstNamed(t, a, s) == FirstNamed(t, rest, s);
      }
    }
  }

  /** The search returns the first candidate, in search order, that has
      the wanted name. */
  lemma {:induction false} ResolveAmongIsFirstMatch(t: Tree, r: Ranking, cs: seq<Id>, s: string, bound: nat)
    requires WellFormed(t, r) && RankedBelow(t, r, cs, bound)
    ensures ResolveAmong(t, r, cs, s, bound) == FirstNamed(t, FrontierOf(t, r, cs, bound), s)
    decreases bound, |cs|
  {
    if |cs| > 0 {
      var c := cs[0];
      RankedTail(t, r, cs, bound);
      ChildrenRanked(t, r, c);
      var head := if IsNamedField(t, c) then [c] else FrontierOf(t, r, t.children[c], r.rank[c]);
      var tail := FrontierOf(t, r, cs[1..], bound);
      assert FrontierOf(t, r, cs, bound) == head + tail;
      ResolveAmongIsFirstMatch(t, r, cs[1..], s, bound);
      if !IsNamedField(t, c) {
        ResolveAmongIsFirstMatch(t, r, t.children[c], s, r.rank[c]);
      }
      FirstNamedAppend(t, head, tail, s);
    }
  }

  lemma ResolveIsFirstMatch(t: Tree, r: Ranking, x: Id, s: string)
    requires WellFormed(t, r) && x in t.nodes
    ensures Resolve(t, r, x, s) == FirstNamed(t, Frontier(t, r, x), s)
  {
    ResolveAmongIsFirstMatch(t, r, t.children[x], s, r.rank[x]);
  }

  // ---------------------------------------------------------------------
  // Which Fields a search can reach.

  /** `y` hangs below `x`: it is a child of `x`, or below a gap child of `x`. */
  ghost predicate Below(t: Tree, r: Ranking, x: Id, y: Id)
    requires WellFormed(t, r) && x in t.nodes
    decreases r.rank[x]
  {
    var cs := t.children[x];
    exists i :: 0 <= i < |cs| && (cs[i] == y || (!IsNamedField(t, cs[i]) && Below(t, r, cs[i], y)))
  }

  ghost predicate BelowSome(t: Tree, r: Ranking, cs: seq<Id>, y: Id)
    requires WellFormed(t, r) && forall i :: 0 <= i < |cs| ==> cs[i] in t.nodes
  {
    exists i :: 0 <= i < |cs| && (cs[i] == y || (!IsNamedField(t, cs[i]) && Below(t, r, cs[i], y)))
  }

  /** `BelowSome` on a non-empty list: through its head, or through its tail. */
  lemma BelowSomeCons(t: Tree, r: Ranking, cs: seq<Id>, y: Id)
    requires WellFormed(t, r) && |cs| > 0 && forall i :: 0 <= i < |cs| ==> cs[i] in t.nodes
    ensures BelowSome(t, r, cs, y)
        <==> (cs[0] == y || (!IsNamedField(t, cs[0]) && Below(t, r, cs[0], y))) || BelowSome(t, r, cs[1..], y)
  {
    var tail := cs[1..];
    if BelowSome(t, r, tail, y) {
      var i :| 0 <= i < |tail| && (tail[i] == y || (!IsNamedField(t, tail[i]) && Below(t, r, tail[i], y)));
      assert cs[i + 1] == tail[i];
    }
    if BelowSome(t, r, cs, y) {
      var i :| 0 <= i < |cs| && (cs[i] == y || (!IsNamedField(t, cs[i]) && Below(t, r, cs[i], y)));
      if i > 0 {
        assert tail[i - 1] == cs[i];
      }
    }
  }

  lemma {:induction false} FrontierOfMembers(t: Tree, r: Ranking, cs: seq<Id>, bound: nat, y: Id)
    requires WellFormed(t, r) && RankedBelow(t, r, cs, bound)
    ensures y in FrontierOf(t, r, cs, bound) <==> IsNamedField(t, y) && BelowSome(t, r, cs, y)
    decreases bound, |cs|
  {
    if |cs| > 0 {
      var c := cs[0];
      var head := if IsNamedField(t, c) then [c] else FrontierOf(t, r, t.children[c], r.rank[c]);
      var tail := FrontierOf(t, r, cs[1..], bound);
      assert FrontierOf(t, r, cs, bound) == head + tail;
      assert y in head + tail <==> y in head || y in tail;
      FrontierOfMembers(t, r, cs[1..], bound, y);
      if !IsNamedField(t, c) {
        FrontierOfMembers(t, r, t.children[c], r.rank[c], y);
        assert Below(t, r, c, y) <==> BelowSome(t, r, t.children[c], y);
      }
      BelowSomeCons(t, r, cs, y);
    }
  }

  /** The candidates of a search below `x` are exactly the named Fields
      that hang below `x` through gaps. */
  lemma FrontierMembers(t: Tree, r: Ranking, x: Id, y: Id)
    requires WellFormed(t, r) && x in t.nodes
    ensures y in Frontier(t, r, x) <==> IsNamedField(t, y) && Below(t, r, x, y)
  {
    FrontierOfMembers(t, r, t.children[x], r.rank[x], y);
  }

  /** A segment resolves below `x` exactly when some Field with that name
      hangs below `x` through gaps only, however many gaps there are. */
  lemma ResolveFindsThroughGaps(t: Tree, r: Ranking, x: Id, s: string)
    requires WellFormed(t, r) && x in t.nodes
    ensures Resolve(t, r, x, s).Some?
        <==> exists y :: IsNamedField(t, y) && t.nodes[y].name == s && Below(t, r, x, y)
  {
    ResolveIsFirstMatch(t, r, x, s);
    var f := Frontier(t, r, x);
    if Resolve(t, r, x, s).Some? {
      var y := Resolve(t, r, x, s).value;
      var k :| 0 <= k < |f| && f[k] == y && t.nodes[f[k]].name == s;
      FrontierMembers(t, r, x, y);
    }
    if exists y :: IsNamedField(t, y) && t.nodes[y].name == s && Below(t, r, x, y) {
      var y :| IsNamedField(t, y) && t.nodes[y].name == s && Below(t, r, x, y);
      FrontierMembers(t, r, x, y);
      var k :| 0 <= k < |f| && f[k] == y;
    }
  }

  // ---------------------------------------------------------------------
  // Composition of segments, and where a lookup fails.

  /** Looking up `a + b` is looking up `a` and then `b` from the result. */
  lemma {:induction false} WalkCompose(t: Tree, r: Ranking, x: Id, a: seq<string>, b: seq<string>)
    requires WellFormed(t, r) && x in t.nodes
    ensures Walk(t, r, x, a + b) == match Walk(t, r, x, a) case None => None case Some(z) => Walk(t, r, z, b)
    decreases |a|
  {
    if |a| == 0 {
      assert a + b == b;
    } else {
      assert (a + b)[0] == a[0] && (a + b)[1..] == a[1..] + b;
      match Resolve(t, r, x, a[0])
      case None =>
      case Some(y) => WalkCompose(t, r, y, a[1..], b);
    }
  }

  /** A non-empty prefix of the segments walks through the first segment's
      result. */
  lemma WalkPrefix(t: Tree, r: Ranking, x: Id, y: Id, segs: seq<string>, i: nat)
    requires WellFormed(t, r) && x in t.nodes && 0 < i <= |segs|
    requires Resolve(t, r, x, segs[0]) == Some(y)
    ensures Walk(t, r, x, segs[..i]) == Walk(t, r, y, segs[1..][..i - 1])
  {
    assert segs[..i][0] == segs[0] && segs[..i][1..] == segs[1..][..i - 1];
  }

  /** The segment at which a lookup from `x` stops: the walk through the
      segments before it succeeds and this one finds nothing. */
  ghost predicate MissingAt(t: Tree, r: Ranking, x: Id, segs: seq<string>, i: int)
    requires WellFormed(t, r) && x in t.nodes
  {
    0 <= i < |segs| && Walk(t, r, x, segs[..i]).Some?
    && Resolve(t, r, Walk(t, r, x, segs[..i]).value, segs[i]).None?
  }

  /** After a first segment that resolves, a later segment is missing from
      `x` exactly when it is missing from that segment's result. */
  lemma MissingAtShift(t: Tree, r: Ranking, x: Id, y: Id, segs: seq<string>, i: int)
    requires WellFormed(t, r) && x in t.nodes && |segs| > 0
    requires Resolve(t, r, x, segs[0]) == Some(y)
    ensures MissingAt(t, r, x, segs, i + 1) <==> MissingAt(t, r, y, segs[1..], i)
  {
    if 0 <= i < |segs| - 1 {
      WalkPrefix(t, r, x, y, segs, i + 1);
      assert segs[1..][i] == segs[i + 1];
    }
  }

  /** A lookup is `null` exactly when some segment, first, middle or last,
      finds nothing below the node the segments before it led to. */
  lemma {:induction false} LocateFailsAtMissingSegment(t: Tree, r: Ranking, x: Id, segs: seq<string>)
    requires WellFormed(t, r) && x in t.nodes && |segs| > 0
    ensures Locate(t, r, x, segs).None? <==> exists i :: MissingAt(t, r, x, segs, i)
    decreases |segs|
  {
    assert segs[..0] == [];
    match Resolve(t, r, x, segs[0])
    case None =>
      assert MissingAt(t, r, x, segs, 0);
    case Some(y) =>
      var rest := segs[1..];
      assert !MissingAt(t, r, x, segs, 0);
      assert Locate(t, r, x, segs) == Walk(t, r, y, rest);
      if |rest| == 0 {
        forall i | MissingAt(t, r, x, segs, i) ensures false {
          MissingAtShift(t, r, x, y, segs, i - 1);
        }
      } else {
        LocateFailsAtMissingSegment(t, r, y, rest);
        if Locate(t, r, x, segs).None? {
          var j :| MissingAt(t, r, y, rest, j);
          MissingAtShift(t, r, x, y, segs, j);
        }
        if exists i :: MissingAt(t, r, x, segs, i) {
          var i :| MissingAt(t, r, x, segs, i);
          MissingAtShift(t, r, x, y, segs, i - 1);
        }
      }
  }

  /** A dotted locator and the array of its dot-free segments find the
      same Field. */
  lemma DottedMatchesSegments(t: Tree, r: Ranking, x: Id, segs: seq<string>)
    requires WellFormed(t, r) && x in t.nodes
    requires DotFree(segs)
    ensures Locate(t, r, x, Parts(Dotted(Join(segs)))) == Locate(t, r, x, Parts(Segments(segs)))
  {
    if |segs| == 0 {
      // `''` splits to one empty segment, and no named Field is called `''`.
      assert Split("") == [""];
      assert Resolve(t, r, x, "").None?;
    } else {
      SplitJoin(segs);
    }
  }

  // ---------------------------------------------------------------------
  // What is found, seen through `fieldPath`: when the `children` lists and
  // the `parent` pointers agree, the result's path is the receiver's scope
  // followed by the locator's segments.

  /** In a consistent tree every child of `x` has `x` as its parent, so it
      inherits `x`'s scope. */
  lemma ChildrenInheritScope(t: Tree, r: Ranking, x: Id)
    requires WellFormed(t, r) && Consistent(t) && x in t.nodes
    ensures forall i :: 0 <= i < |t.children[x]| ==>
              t.children[x][i] in t.parent && Scope(t, r, t.parent[t.children[x][i]]) == Scope(t, r, x)
  {
    forall i | 0 <= i < |t.children[x]|
      ensures t.children[x][i] in t.parent && t.parent[t.children[x][i]] == x
    {
      assert t.children[x][i] in t.children[x];
    }
  }

  /** A gap passes its parent's scope on unchanged. */
  lemma GapScope(t: Tree, r: Ranking, c: Id)
    requires WellFormed(t, r) && c in t.parent && !IsNamedField(t, c)
    ensures Scope(t, r, c) == Scope(t, r, t.parent[c])
  {
  }

  /** The candidates below a non-empty list come from its head or its tail. */
  lemma FrontierOfCons(t: Tree, r: Ranking, cs: seq<Id>, bound: nat, y: Id)
    requires WellFormed(t, r) && RankedBelow(t, r, cs, bound) && |cs| > 0
    requires y in FrontierOf(t, r, cs, bound)
    ensures (IsNamedField(t, cs[0]) && y == cs[0])
         || (!IsNamedField(t, cs[0]) && y in FrontierOf(t, r, t.children[cs[0]], r.rank[cs[0]]))
         || y in FrontierOf(t, r, cs[1..], bound)
  {
    var c := cs[0];
    var head := if IsNamedField(t, c) then [c] else FrontierOf(t, r, t.children[c], r.rank[c]);
    assert FrontierOf(t, r, cs, bound) == head + FrontierOf(t, r, cs[1..], bound);
  }

  /** Every node of `cs` whose parent has scope `scope`. */
  ghost predicate ParentScopeIs(t: Tree, r: Ranking, cs: seq<Id>, scope: seq<string>)
    requires WellFormed(t, r)
  {
    forall i :: 0 <= i < |cs| ==> cs[i] in t.parent && Scope(t, r, t.parent[cs[i]]) == scope
  }

  lemma ParentScopeTail(t: Tree, r: Ranking, cs: seq<Id>, scope: seq<string>)
    requires WellFormed(t, r) && ParentScopeIs(t, r, cs, scope) && |cs| > 0
    ensures ParentScopeIs(t, r, cs[1..], scope)
  {
    forall i | 0 <= i < |cs[1..]|
      ensures cs[1..][i] in t.parent && Scope(t, r, t.parent[cs[1..][i]]) == scope
    {
      assert cs[1..][i] == cs[i + 1];
    }
  }

  lemma {:induction false} FrontierOfScope(t: Tree, r: Ranking, cs: seq<Id>, bound: nat, scope: seq<string>, y: Id)
    requires WellFormed(t, r) && Consistent(t) && RankedBelow(t, r, cs, bound)
    requires ParentScopeIs(t, r, cs, scope)
    requires y in FrontierOf(t, r, cs, bound)
    ensures Scope(t, r, y) == scope + [t.nodes[y].name]
    decreases bound, |cs|
  {
    var c := cs[0];
    FrontierOfCons(t, r, cs, bound, y);
    if IsNamedField(t, c) && y == c {
    } else if !IsNamedField(t, c) && y in FrontierOf(t, r, t.children[c], r.rank[c]) {
      ChildrenRanked(t, r, c);
      assert ParentScopeIs(t, r, t.children[c], scope) by {
        GapScope(t, r, c);
        ChildrenInheritScope(t, r, c);
      }
      FrontierOfScope(t, r, t.children[c], r.rank[c], scope, y);
    } else {
      RankedTail(t, r, cs, bound);
      ParentScopeTail(t, r, cs, scope);
      FrontierOfScope(t, r, cs[1..], bound, scope, y);
    }
  }

  /** In a consistent tree, resolving a segment below `x` extends `x`'s
      scope by that segment. */
  lemma ResolveExtendsScope(t: Tree, r: Ranking, x: Id, s: string)
    requires WellFormed(t, r) && Consistent(t) && x in t.nodes
    requires Resolve(t, r, x, s).Some?
    ensures Scope(t, r, Resolve(t, r, x, s).value) == Scope(t, r, x) + [s]
  {
    var y := Resolve(t, r, x, s).value;
    ResolveIsFirstMatch(t, r, x, s);
    var f := Frontier(t, r, x);
    var k :| 0 <= k < |f| && f[k] == y;
    ChildrenInheritScope(t, r, x);
    FrontierOfScope(t, r, t.children[x], r.rank[x], Scope(t, r, x), y);
  }

  lemma {:induction false} WalkExtendsScope(t: Tree, r: Ranking, x: Id, segs: seq<string>)
    requires WellFormed(t, r) && Consistent(t) && x in t.nodes
    requires Walk(t, r, x, segs).Some?
    ensures Scope(t, r, Walk(t, r, x, segs).value) == Scope(t, r, x) + segs
    decreases |segs|
  {
    if |segs| > 0 {
      var y := Resolve(t, r, x, segs[0]).value;
      var z := Walk(t, r, x, segs).value;
      assert Walk(t, r, x, segs) == Walk(t, r, y, segs[1..]);
      var sx, sy, sz := Scope(t, r, x), Scope(t, r, y), Scope(t, r, z);
      assert sy == sx + [segs[0]] by {
        ResolveExtendsScope(t, r, x, segs[0]);
      }
      assert sz == sy + segs[1..] by {
        WalkExtendsScope(t, r, y, segs[1..]);
      }
      AppendStep(sx, segs);
    }
  }

  lemma AppendStep(a: seq<string>, b: seq<string>)
    requires |b| > 0
    ensures a + [b[0]] + b[1..] == a + b
  {
    assert b == [b[0]] + b[1..];
  }

  /** In a consistent tree, the Field `find` returns has as its
      `fieldPath` the receiver's scope followed by the segments. */
  lemma FoundFieldPath(t: Tree, r: Ranking, x: Id, segs: seq<string>)
    requires WellFormed(t, r) && Consistent(t) && x in t.nodes
    requires Locate(t, r, x, segs).Some?
    ensures FieldPath(t, r, Locate(t, r, x, segs).value) == Join(Scope(t, r, x) + segs)
  {
    WalkExtendsScope(t, r, x, segs);
  }

  /** ... so from a named Field the result's path is the receiver's path,
      a dot, and the dotted locator. */
  lemma FoundBelowNamedField(t: Tree, r: Ranking, x: Id, segs: seq<string>)
    requires WellFormed(t, r) && Consistent(t) && IsNamedField(t, x)
    requires Locate(t, r, x, segs).Some?
    ensures FieldPath(t, r, Locate(t, r, x, segs).value) == FieldPath(t, r, x) + [Dot] + Join(segs)
  {
    FoundFieldPath(t, r, x, segs);
    JoinAppend(Scope(t, r, x), segs);
  }
}
