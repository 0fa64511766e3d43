/** The mutable form: the node store that `new FormElement(...)`,
    `new Field(...)` and `add` change in place, and the `find` /
    `findField` queries run against its current state. */
module Forms {
  import opened Wrappers
  import opened DottedPath
  import opened FormTree
  import opened FieldPaths
  import opened Lookup

  /** Every id in use lies below `next`, so `next` is fresh. */
  ghost predicate IdsBelow(t: Tree, next: Id)
  {
    forall y :: y in t.nodes ==> y < next
  }

  /** What `add` needs of the store, proved on values: the linked store is
      acyclic under a new ranking, keeps its ids, and gives `c` the scope
      of `p` followed by `c`'s own name. */
  lemma AddStep(t: Tree, r: Ranking, next: Id, p: Id, c: Id) returns (r2: Ranking)
    requires WellFormed(t, r) && IdsBelow(t, next) && p in t.nodes && c in t.nodes
    requires !Reaches(t, r, c, p)
    ensures WellFormed(Link(t, p, c), r2) && IdsBelow(Link(t, p, c), next)
    ensures Scope(Link(t, p, c), r2, c)
         == Scope(t, r, p) + (if IsNamedField(t, c) then [t.nodes[c].name] else [])
  {
    r2 := Rerank(t, r, p, c);
    AddSetsScope(t, r, p, c, r2);
    assert Link(t, p, c).nodes == t.nodes;
  }

  class Form {
    var tree: Tree
    /** A ranking that shows the children relation is acyclic. */
    ghost var ranking: Ranking
    /** The id the next created node receives. */
    var next: Id

    ghost predicate Valid()
      reads this
    {
      WellFormed(tree, ranking) && IdsBelow(tree, next)
    }

    constructor ()
      ensures Valid() && tree == EmptyTree
    {
      tree := EmptyTree;
      ranking := Ranking(map[], 0);
      next := 0;
    }

    method Create(n: Node) returns (id: Id)
      requires Valid()
      modifies this
      ensures Valid() && id !in old(tree.nodes)
      ensures tree == WithNode(old(tree), id, n)
      ensures id !in tree.parent && tree.children[id] == []
    {
      id := next;
      WithNodeWellFormed(tree, ranking, id, n);
      tree := WithNode(tree, id, n);
      ranking := Ranking(ranking.rank[id := 0], ranking.height + 1);
      next := next + 1;
    }

    /** `new FormElement(name)`; an omitted name is `""`. */
    method NewElement(name: string) returns (id: Id)
      requires Valid()
      modifies this
      ensures Valid() && id !in old(tree.nodes)
      ensures tree == WithNode(old(tree), id, Node(name, Element))
      ensures id !in tree.parent && tree.children[id] == []
    {
      id := Create(Node(name, Element));
    }

    /** `new Field(type, name, options)`: stores the type, the name and the
        very options list it is given, and no prototype. `new Field(type)`
        and `new Field(type, name)` are this form with `""` and `[]` for
        what is omitted. */
    method NewField(fieldType: string, name: string, options: seq<Choice>) returns (id: Id)
      requires Valid()
      modifies this
      ensures Valid() && id !in old(tree.nodes)
      ensures tree == WithNode(old(tree), id, Node(name, Field(fieldType, options, None)))
      ensures id !in tree.parent && tree.children[id] == []
    {
      id := Create(Node(name, Field(fieldType, options, None)));
    }

    /** `new Field(type, name, prototype)`: stores the type, the name and the
        given prototype node, and an empty options list. */
    method NewPrototypeField(fieldType: string, name: string, prototype: Id) returns (id: Id)
      requires Valid() && prototype in tree.nodes
      modifies this
      ensures Valid() && id !in old(tree.nodes)
      ensures tree == WithNode(old(tree), id, Node(name, Field(fieldType, [], Some(prototype))))
      ensures id !in tree.parent && tree.children[id] == []
    {
      id := Create(Node(name, Field(fieldType, [], Some(prototype))));
    }

    /** `p.add(c)`: `c` is appended to `p`'s children and its parent becomes
        `p`, replacing any earlier parent; `c` stays in an earlier parent's
        list. Afterwards `c`'s scope, and so its `fieldPath`, continues `p`'s
        scope. The caller must not close a cycle. */
    method Add(p: Id, c: Id)
      requires Valid() && p in tree.nodes && c in tree.nodes
      requires !Reaches(tree, ranking, c, p)
      modifies this
      ensures Valid() && tree == Link(old(tree), p, c) && next == old(next)
      ensures Scope(tree, ranking, c)
              == old(Scope(tree, ranking, p)) + (if IsNamedField(tree, c) then [tree.nodes[c].name] else [])
    {
      ghost var r2 := AddStep(tree, ranking, next, p, c);
      tree := Link(tree, p, c);
      ranking := r2;
    }

    /** `x.find(locator)`: resolves the segments one at a time, starting
        from `x`; `null` for an empty locator or as soon as one segment
        finds nothing. */
    method Find(x: Id, loc: Locator) returns (found: Option<Id>)
      requires Valid() && x in tree.nodes
      ensures found == Locate(tree, ranking, x, Parts(loc))
      ensures loc == Dotted("") || loc == Segments([]) ==> found == None
    {
      var segs := match loc case Dotted(s) => Split(s) case Segments(ss) => ss;
      if |segs| == 0 {
        return None;
      }
      var t := tree;
      ghost var r := ranking;
      var cur := x;
      var i := 0;
      while i < |segs|
        invariant WellFormed(t, r) && 0 <= i <= |segs| && cur in t.nodes
        invariant Walk(t, r, x, segs) == Walk(t, r, cur, segs[i..])
      {
        var step := Resolve(t, r, cur, segs[i]);
        WalkStep(t, r, cur, segs, i);
        if step.None? {
          return None;
        }
        cur := step.value;
        i := i + 1;
      }
      assert segs[i..] == [];
      found := Some(cur);
    }

    /** `x.findField(locator)`: the same lookup as `find`. */
    method FindField(x: Id, loc: Locator) returns (found: Option<Id>)
      requires Valid() && x in tree.nodes
      ensures found == Locate(tree, ranking, x, Parts(loc))
    {
      found := Find(x, loc);
    }
  }
}
