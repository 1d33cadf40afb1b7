/** The quotient graph (`QuotientGraph` and `QuotientGraphNodeIterator` in
    main.cpp): a class of the union-find is one super-node, and iterating the
    super-node of `i` walks the adjacency lists of all members of `i`'s class,
    in list order, yielding the edges that leave the class.

    The reference definitions below take the partition as a labelling `cls`
    of the nodes (`cls[v]` is the representative of `v`); `Classes` computes
    it from a union-find. */
module Quotient {
  import opened Chains
  import opened DisjointSets
  import opened Graphs

  /** The graph and the partition cover the same nodes. */
  ghost predicate Compatible<T>(g: Graph, u: UnionFind<T>) {
    Valid(u) && WellFormed(g) && |g| == Size(u)
  }

  /** The representative of every element, in element order. */
  function Classes<T>(u: UnionFind<T>): (cls: seq<int>)
    requires WellShaped(u)
    ensures |cls| == Size(u)
    ensures forall k :: 0 <= k < Size(u) ==> cls[k] == Rep(u, k)
  {
    seq(Size(u), k requires 0 <= k < Size(u) => Rep(u, k))
  }

  /** `cls` labels every node of `g`. */
  ghost predicate Labels(g: Graph, cls: seq<int>) {
    WellFormed(g) && |cls| == |g|
  }

  /** Among the first `k` edges of node `m`'s list, those whose destination
      carries a different label from `m`, in list order. */
  function OutgoingUpTo(g: Graph, cls: seq<int>, m: int, k: int): seq<EdgeRef>
    requires Labels(g, cls) && 0 <= m < |g| && 0 <= k <= |g[m]|
    decreases k
  {
    if k == 0 then []
    else
      var s := OutgoingUpTo(g, cls, m, k - 1);
      if cls[g[m][k - 1].dest] != cls[m] then s + [EdgeRef(m, k - 1)] else s
  }

  /** The edges kept from the first `k` of `m`'s list are references into
      that prefix, in increasing position, and an edge is kept exactly when
      its destination lies in another class. */
  lemma {:induction false} OutgoingUpToSpec(g: Graph, cls: seq<int>, m: int, k: int)
    requires Labels(g, cls) && 0 <= m < |g| && 0 <= k <= |g[m]|
    ensures forall a :: 0 <= a < |OutgoingUpTo(g, cls, m, k)| ==>
      OutgoingUpTo(g, cls, m, k)[a].node == m && 0 <= OutgoingUpTo(g, cls, m, k)[a].pos < k
    ensures forall a, b :: 0 <= a < b < |OutgoingUpTo(g, cls, m, k)| ==>
      OutgoingUpTo(g, cls, m, k)[a].pos < OutgoingUpTo(g, cls, m, k)[b].pos
    ensures forall e :: e in OutgoingUpTo(g, cls, m, k) <==>
      e.node == m && 0 <= e.pos < k && cls[g[m][e.pos].dest] != cls[m]
    decreases k
  {
    if k > 0 {
      OutgoingUpToSpec(g, cls, m, k - 1);
    }
  }

  lemma OutgoingStep(g: Graph, cls: seq<int>, m: int, k: int)
    requires Labels(g, cls) && 0 <= m < |g| && 0 <= k < |g[m]|
    ensures OutgoingUpTo(g, cls, m, k + 1) == OutgoingUpTo(g, cls, m, k) +
      (if cls[g[m][k].dest] != cls[m] then [EdgeRef(m, k)] else [])
  {
  }

  ghost predicate Nodes(g: Graph, ms: seq<int>) {
    forall k :: 0 <= k < |ms| ==> 0 <= ms[k] < |g|
  }

  /** The outgoing edges of the nodes `ms`, node by node. */
  function ConcatOutgoing(g: Graph, cls: seq<int>, ms: seq<int>): seq<EdgeRef>
    requires Labels(g, cls) && Nodes(g, ms)
    decreases |ms|
  {
    if ms == [] then []
    else
      var init, last := ms[..|ms| - 1], ms[|ms| - 1];
      ConcatOutgoing(g, cls, init) + OutgoingUpTo(g, cls, last, |g[last]|)
  }

  /** An edge is among the outgoing edges of `ms` exactly when it belongs to
      a node of `ms` and its destination lies in another class. */
  lemma {:induction false} ConcatOutgoingSpec(g: Graph, cls: seq<int>, ms: seq<int>)
    requires Labels(g, cls) && Nodes(g, ms)
    ensures forall e :: e in ConcatOutgoing(g, cls, ms) <==>
      && 0 <= e.node < |g| && e.node in ms && 0 <= e.pos < |g[e.node]|
      && cls[g[e.node][e.pos].dest] != cls[e.node]
    decreases |ms|
  {
    if ms != [] {
      var init, last := ms[..|ms| - 1], ms[|ms| - 1];
      assert ms == init + [last];
      ConcatOutgoingSpec(g, cls, init);
      OutgoingUpToSpec(g, cls, last, |g[last]|);
    }
  }

  /** Edges of earlier nodes of `ms` come first; edges of one node come in
      list order. */
  lemma {:induction false} ConcatOrder(g: Graph, cls: seq<int>, ms: seq<int>,
                                       a: int, b: int, p: int, q: int)
    requires Labels(g, cls) && Nodes(g, ms) && Distinct(ms)
    requires 0 <= a < b < |ConcatOutgoing(g, cls, ms)|
    requires 0 <= p < |ms| && ms[p] == ConcatOutgoing(g, cls, ms)[a].node
    requires 0 <= q < |ms| && ms[q] == ConcatOutgoing(g, cls, ms)[b].node
    ensures p < q || (p == q && ConcatOutgoing(g, cls, ms)[a].pos < ConcatOutgoing(g, cls, ms)[b].pos)
    decreases |ms|
  {
    var r := ConcatOutgoing(g, cls, ms);
    var init, last := ms[..|ms| - 1], ms[|ms| - 1];
    var c, o := ConcatOutgoing(g, cls, init), OutgoingUpTo(g, cls, last, |g[last]|);
    assert r == c + o;
    ConcatOutgoingSpec(g, cls, init);
    OutgoingUpToSpec(g, cls, last, |g[last]|);
    if a < |c| {
      assert r[a] == c[a] && r[a] in c;
      var p' :| 0 <= p' < |init| && init[p'] == r[a].node;
      assert ms[p'] == ms[p];
      assert p == p';
      if b < |c| {
        assert r[b] == c[b] && r[b] in c;
        var q' :| 0 <= q' < |init| && init[q'] == r[b].node;
        assert ms[q'] == ms[q];
        assert Distinct(init);
        ConcatOrder(g, cls, init, a, b, p, q);
      } else {
        assert r[b] == o[b - |c|];
        assert ms[q] == last;
      }
    } else {
      assert r[a] == o[a - |c|] && r[b] == o[b - |c|];
      assert ms[p] == last && ms[q] == last;
    }
  }

  lemma ConcatStep(g: Graph, cls: seq<int>, ms: seq<int>, p: int)
    requires Labels(g, cls) && Nodes(g, ms) && 0 <= p < |ms|
    ensures ConcatOutgoing(g, cls, ms[..p + 1]) ==
      ConcatOutgoing(g, cls, ms[..p]) + OutgoingUpTo(g, cls, ms[p], |g[ms[p]]|)
  {
    assert ms[..p + 1][..p] == ms[..p];
  }

  /** What iterating `QuotientGraph::operator[](i)` to its end yields: the
      edges leaving the class of `i`, member by member in list order. */
  function QuotientEdges<T>(g: Graph, u: UnionFind<T>, i: int): seq<EdgeRef>
    requires Compatible(g, u) && 0 <= i < |g|
  {
    ConcatOutgoing(g, Classes(u), Members(u, Rep(u, i)))
  }

  /** The edges the iteration yields are exactly the edge records in the
      lists of members of `i`'s class whose destination lies in another
      class, and none is yielded twice. */
  lemma QuotientEdgesSpec<T>(g: Graph, u: UnionFind<T>, i: int)
    requires Compatible(g, u) && 0 <= i < |g|
    ensures forall e :: e in QuotientEdges(g, u, i) <==>
      ValidRef(g, e) && Rep(u, e.node) == Rep(u, i) && Rep(u, At(g, e).dest) != Rep(u, i)
    ensures DistinctRefs(QuotientEdges(g, u, i))
  {
    var cls := Classes(u);
    var root := Rep(u, i);
    var ms := Members(u, root);
    assert ClassListed(u, root);
    var r := QuotientEdges(g, u, i);
    ConcatOutgoingSpec(g, cls, ms);
    forall a, b | 0 <= a < b < |r| ensures r[a] != r[b] {
      assert r[a] in r && r[b] in r;
      var p :| 0 <= p < |ms| && ms[p] == r[a].node;
      var q :| 0 <= q < |ms| && ms[q] == r[b].node;
      ConcatOrder(g, cls, ms, a, b, p, q);
    }
  }

  /** The order of the iteration: member order first, list order second. */
  lemma QuotientOrder<T>(g: Graph, u: UnionFind<T>, i: int, a: int, b: int, p: int, q: int)
    requires Compatible(g, u) && 0 <= i < |g|
    requires 0 <= a < b < |QuotientEdges(g, u, i)|
    requires 0 <= p < |Members(u, Rep(u, i))| && Members(u, Rep(u, i))[p] == QuotientEdges(g, u, i)[a].node
    requires 0 <= q < |Members(u, Rep(u, i))| && Members(u, Rep(u, i))[q] == QuotientEdges(g, u, i)[b].node
    ensures p < q || (p == q && QuotientEdges(g, u, i)[a].pos < QuotientEdges(g, u, i)[b].pos)
  {
    assert ClassListed(u, Rep(u, i));
    ConcatOrder(g, Classes(u), Members(u, Rep(u, i)), a, b, p, q);
  }

  /** The test of `QuotientGraphNodeIterator::next`,
      `parent(m_it->dest) != parent(m_node)`, on a structure `u` that
      describes the same partition as `u0`: whether edge `it` of `node`'s list
      leaves the class of `node`. Both calls may compress paths. */
  method LeavesClass<T>(g: Graph, u0: UnionFind<T>, u: UnionFind<T>, node: int, it: int)
    returns (leaves: bool, u': UnionFind<T>)
    requires Compatible(g, u0) && SamePartition(u0, u) && 0 <= node < |g| && 0 <= it < |g[node]|
    ensures SamePartition(u0, u')
    ensures leaves <==> Rep(u0, g[node][it].dest) != Rep(u0, node)
  {
    SamePartitionValid(u0, u);
    var u1, rd := Find(u, g[node][it].dest);
    var u2, rn := Find(u1, node);
    SamePartitionTrans(u, u1, u2);
    SamePartitionTrans(u0, u, u2);
    leaves, u' := rd != rn, u2;
  }

  /** The inner half of `QuotientGraphNodeIterator::next`: run through the
      adjacency list of `node` and keep the edges whose destination has a
      different representative, calling `parent` on both ends of each. */
  method ScanList<T>(g: Graph, u0: UnionFind<T>, u: UnionFind<T>, node: int)
    returns (out: seq<EdgeRef>, u': UnionFind<T>)
    requires Compatible(g, u0) && SamePartition(u0, u) && 0 <= node < |g|
    ensures out == OutgoingUpTo(g, Classes(u0), node, |g[node]|)
    ensures SamePartition(u0, u')
  {
    ghost var cls := Classes(u0);
    u' := u;
    out := [];
    var it := 0;
    while it != |g[node]|
      invariant SamePartition(u0, u')
      invariant 0 <= it <= |g[node]|
      invariant out == OutgoingUpTo(g, cls, node, it)
      decreases |g[node]| - it
    {
      var leaves;
      leaves, u' := LeavesClass(g, u0, u', node, it);
      assert leaves <==> cls[g[node][it].dest] != cls[node];
      OutgoingStep(g, cls, node, it);
      out := out + (if leaves then [EdgeRef(node, it)] else []);
      it := it + 1;
    }
  }

  /** `QuotientGraph::operator[](i)` followed by `operator++` until the
      iterator ends, as the source runs it: start at the list of `parent(i)`,
      move to `next(node)` when a list is exhausted, and yield an edge when
      `parent(dest) != parent(node)`. Every `parent` call may compress paths,
      so the structure is threaded through; its partition never changes. */
  method Iterate<T>(g: Graph, u0: UnionFind<T>, i: int) returns (edges: seq<EdgeRef>, u: UnionFind<T>)
    requires Compatible(g, u0) && 0 <= i < |g|
    ensures edges == QuotientEdges(g, u0, i)
    ensures SamePartition(u0, u)
  {
    ghost var cls := Classes(u0);
    var node;
    u, node := Find(u0, i);
    ghost var ms := Members(u0, node);
    assert ClassListed(u0, node);
    ghost var p := 0;
    edges := [];
    while node != NIL
      invariant SamePartition(u0, u)
      invariant 0 <= p <= |ms| && node == (if p < |ms| then ms[p] else NIL)
      invariant edges == ConcatOutgoing(g, cls, ms[..p])
      decreases |ms| - p
    {
      var out;
      out, u := ScanList(g, u0, u, node);
      ConcatStep(g, cls, ms, p);
      edges := edges + out;
      NextInChain(u0.fchild, Rep(u0, i), ms, p);
      assert u.fchild == u0.fchild;
      node := Next(u, node);
      p := p + 1;
    }
    assert ms[..p] == ms;
  }
}
