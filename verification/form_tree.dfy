/** The form tree as a value: a store of nodes indexed by ids, with the two
    links `add` maintains — each node's `children` list and each node's
    `parent` pointer. The two may disagree: re-adding a node to a second
    parent moves its `parent` pointer but leaves it in the first parent's
    `children` list. */
module FormTree {
  import opened Wrappers

  type Id = nat

  /** An entry of a field's `options` list (the library's `Option`): an
      opaque object told apart from others only by its identity. */
  class Choice {
    constructor ()
    {
    }
  }

  /** What a node is: a plain `FormElement`, or a `Field` with its value
      type tag, its option list and its optional prototype node. */
  datatype Kind =
    | Element
    | Field(fieldType: string, options: seq<Choice>, prototype: Option<Id>)

  datatype Node = Node(name: string, kind: Kind)

  datatype Tree = Tree(nodes: map<Id, Node>, parent: map<Id, Id>, children: map<Id, seq<Id>>)

  /** A ranking of the nodes that strictly decreases along every `children`
      entry and stays below `height`; it exists exactly when the children
      relation has no cycle, and it bounds the walks up and down the tree. */
  datatype Ranking = Ranking(rank: map<Id, nat>, height: nat)

  const EmptyTree := Tree(map[], map[], map[])

  predicate IsField(t: Tree, x: Id)
  {
    x in t.nodes && t.nodes[x].kind.Field?
  }

  /** Fields with a non-empty name are the only nodes that take part in
      paths; every other node is a "gap". */
  predicate IsNamedField(t: Tree, x: Id)
  {
    IsField(t, x) && t.nodes[x].name != ""
  }

  /** The store is closed under both links, and every `parent` pointer is
      backed by an entry in that parent's `children` list. */
  ghost predicate Linked(t: Tree)
  {
    && t.children.Keys == t.nodes.Keys
    && (forall x, c :: x in t.children && c in t.children[x] ==> c in t.nodes)
    && (forall y :: y in t.parent ==> y in t.nodes && t.parent[y] in t.nodes && y in t.children[t.parent[y]])
  }

  /** `r` ranks every node below `r.height`, and strictly lower than every
      node whose `children` list holds it. */
  ghost predicate RankedEdges(t: Tree, r: Ranking)
  {
    && r.rank.Keys == t.nodes.Keys
    && (forall x :: x in r.rank ==> r.rank[x] < r.height)
    && (forall x, c :: x in t.children && c in t.children[x] ==> c in r.rank && x in r.rank && r.rank[c] < r.rank[x])
  }

  ghost predicate WellFormed(t: Tree, r: Ranking)
  {
    Linked(t) && RankedEdges(t, r)
  }

  /** Every `children` entry is matched by the child's `parent` pointer:
      the two links describe the same forest. */
  predicate Consistent(t: Tree)
  {
    forall x, c :: x in t.children && c in t.children[x] ==> c in t.parent && t.parent[c] == x
  }

  /** `y` is `x` or lies below `x` following `children` lists. */
  ghost predicate Reaches(t: Tree, r: Ranking, x: Id, y: Id)
    requires WellFormed(t, r) && x in t.nodes
    decreases r.rank[x]
  {
    x == y || exists c :: c in t.children[x] && Reaches(t, r, c, y)
  }

  /** `a` is `y` or one of its ancestors following `parent` pointers. */
  ghost predicate OnChain(t: Tree, r: Ranking, a: Id, y: Id)
    requires WellFormed(t, r) && y in t.nodes
    decreases r.height - r.rank[y]
  {
    a == y || (y in t.parent && OnChain(t, r, a, t.parent[y]))
  }

  /** The store with one more node, created standalone: no parent and no
      children. */
  function WithNode(t: Tree, id: Id, n: Node): Tree
  {
    t.(nodes := t.nodes[id := n], children := t.children[id := []])
  }

  /** A standalone node can be added to a well-formed store at rank 0. */
  lemma WithNodeWellFormed(t: Tree, r: Ranking, id: Id, n: Node)
    requires WellFormed(t, r) && id !in t.nodes
    ensures WellFormed(WithNode(t, id, n), Ranking(r.rank[id := 0], r.height + 1))
  {
    var t2 := WithNode(t, id, n);
    var r2 := Ranking(r.rank[id := 0], r.height + 1);
    forall x, c | x in t2.children && c in t2.children[x]
      ensures c in t2.nodes && c in r2.rank && x in r2.rank && r2.rank[c] < r2.rank[x]
    {
      assert x != id;
      assert c in t.children[x];
    }
    forall y | y in t2.parent
      ensures y in t2.nodes && t2.parent[y] in t2.nodes && y in t2.children[t2.parent[y]]
    {
      assert y in t.children[t.parent[y]];
      assert t.parent[y] != id;
    }
  }

  /** `p.add(c)`: append `c` to `p`'s children and point `c`'s parent at
      `p`, whatever it pointed at before. */
  function Link(t: Tree, p: Id, c: Id): Tree
    requires p in t.children
  {
    t.(parent := t.parent[c := p], children := t.children[p := t.children[p] + [c]])
  }

  lemma {:induction false} ReachesStep(t: Tree, r: Ranking, a: Id, z: Id, y: Id)
    requires WellFormed(t, r) && a in t.nodes && z in t.nodes
    requires Reaches(t, r, a, z) && y in t.children[z]
    ensures Reaches(t, r, a, y)
    decreases r.rank[a]
  {
    if a == z {
      assert Reaches(t, r, y, y);
    } else {
      var c :| c in t.children[a] && Reaches(t, r, c, z);
      ReachesStep(t, r, c, z, y);
    }
  }

  /** An ancestor along `parent` pointers also reaches the node along
      `children` lists. */
  lemma {:induction false} OnChainReaches(t: Tree, r: Ranking, a: Id, y: Id)
    requires WellFormed(t, r) && a in t.nodes && y in t.nodes
    requires OnChain(t, r, a, y)
    ensures Reaches(t, r, a, y)
    decreases r.height - r.rank[y]
  {
    if a != y {
      var z := t.parent[y];
      OnChainReaches(t, r, a, z);
      ReachesStep(t, r, a, z, y);
    }
  }

  /** A node reaches whatever its children reach. */
  lemma ReachesThroughChild(t: Tree, r: Ranking, x: Id, d: Id, y: Id)
    requires WellFormed(t, r) && x in t.nodes && d in t.children[x]
    requires Reaches(t, r, d, y)
    ensures Reaches(t, r, x, y)
  {
  }

  /** Adding a node below one it does not reach keeps the tree acyclic:
      a new ranking exists. Every node that reaches `p` is lifted above `c`. */
  lemma Rerank(t: Tree, r: Ranking, p: Id, c: Id) returns (r2: Ranking)
    requires WellFormed(t, r) && p in t.nodes && c in t.nodes
    requires !Reaches(t, r, c, p)
    ensures WellFormed(Link(t, p, c), r2)
  {
    var above := set y | y in t.nodes && Reaches(t, r, y, p);
    forall x, d | x in t.children && d in t.children[x] && d in above
      ensures x in above
    {
      ReachesThroughChild(t, r, x, d, p);
    }
    r2 := Lift(t, r, p, c, above);
    LinkKeepsLinked(t, p, c);
  }

  lemma LinkKeepsLinked(t: Tree, p: Id, c: Id)
    requires Linked(t) && p in t.nodes && c in t.nodes
    ensures Linked(Link(t, p, c))
  {
    var t2 := Link(t, p, c);
    forall x, d | x in t2.children && d in t2.children[x]
      ensures d in t2.nodes
    {
      if x != p || d != c {
        assert d in t.children[x];
      }
    }
    forall y | y in t2.parent
      ensures y in t2.nodes && t2.parent[y] in t2.nodes && y in t2.children[t2.parent[y]]
    {
      if y != c {
        assert y in t.children[t.parent[y]];
      }
    }
  }

  /** Every edge after `Link(t, p, c)` other than `p -> c` was already an edge. */
  lemma LinkEdge(t: Tree, p: Id, c: Id, x: Id, d: Id)
    requires Linked(t) && p in t.nodes
    requires x in Link(t, p, c).children && d in Link(t, p, c).children[x]
    requires x != p || d != c
    ensures x in t.children && d in t.children[x]
  {
    if x == p {
      assert Link(t, p, c).children[p] == t.children[p] + [c];
    }
  }

  /** The ranking of `Rerank`, given the set of nodes that reach `p`: that
      set is closed upwards, holds `p` and not `c`. */
  lemma Lift(t: Tree, r: Ranking, p: Id, c: Id, above: set<Id>) returns (r2: Ranking)
    requires WellFormed(t, r) && p in t.nodes && c in t.nodes
    requires p in above && c !in above
    requires forall x, d :: x in t.children && d in t.children[x] && d in above ==> x in above
    ensures RankedEdges(Link(t, p, c), r2)
  {
    var k := r.rank[c] + 1;
    var lifted: map<Id, nat> := map y | y in r.rank :: if y in above then r.rank[y] + k else r.rank[y];
    r2 := Ranking(lifted, r.height + k);
    var t2 := Link(t, p, c);
    assert lifted.Keys == t2.nodes.Keys;
    forall y | y in lifted ensures lifted[y] < r2.height {
      assert r.rank[y] < r.height;
    }
    forall x, d | x in t2.children && d in t2.children[x]
      ensures d in lifted && x in lifted && lifted[d] < lifted[x]
    {
      if x != p || d != c {
        LinkEdge(t, p, c, x, d);
        assert x in r.rank && d in r.rank && r.rank[d] < r.rank[x];
        if d in above {
          assert x in above;
        }
      } else {
        assert lifted[p] == r.rank[p] + k && lifted[c] == r.rank[c];
      }
    }
  }

  /** Adding a node that has no parent yet keeps the two links in agreement. */
  lemma LinkKeepsConsistent(t: Tree, p: Id, c: Id)
    requires Consistent(t) && p in t.children && c !in t.parent
    ensures Consistent(Link(t, p, c))
  {
    var t2 := Link(t, p, c);
    forall x, d | x in t2.children && d in t2.children[x]
      ensures d in t2.parent && t2.parent[d] == x
    {
      if x != p || d != c {
        assert d in t.children[x];
      }
    }
  }

  /** Re-adding a node to a different parent leaves it in the old parent's
      `children` list, so the two links no longer agree. */
  lemma ReparentBreaksConsistency(t: Tree, r: Ranking, p: Id, c: Id)
    requires WellFormed(t, r) && p in t.nodes
    requires c in t.parent && t.parent[c] != p
    ensures !Consistent(Link(t, p, c))
  {
    var former := t.parent[c];
    var t2 := Link(t, p, c);
    assert former in t2.children && c in t2.children[former];
    assert t2.parent[c] == p;
  }
}
