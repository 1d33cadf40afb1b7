/** `augment` (main.cpp): flipping the `matched` flag of every edge record
    on a path, and what that does to a matching when the path is an
    augmenting one.

    The matching is the set of edge records whose flag is set; it is a
    matching when no two of those records share an endpoint. */
module Augment {
  import Chains
  import opened Graphs

  /** Both graphs have the same adjacency lists, position for position. */
  ghost predicate SameShape(g: Graph, g': Graph) {
    && |g'| == |g|
    && forall v :: 0 <= v < |g| ==> |g'[v]| == |g[v]|
  }

  ghost predicate ValidPath(g: Graph, p: seq<EdgeRef>) {
    forall k :: 0 <= k < |p| ==> ValidRef(g, p[k])
  }

  /** The edge record `ed` with its `matched` flag inverted when `flip`. */
  function Flip(ed: Edge, flip: bool): Edge {
    ed.(matched := ed.matched != flip)
  }

  /** `(*edg)->matched = !(*edg)->matched` for one edge reference `e`: that
      record is flipped and every other record is left alone. */
  function Toggle(g: Graph, e: EdgeRef): (g': Graph)
    requires ValidRef(g, e)
    ensures SameShape(g, g')
    ensures forall v, k :: 0 <= v < |g| && 0 <= k < |g[v]| ==>
      g'[v][k] == Flip(g[v][k], EdgeRef(v, k) == e)
  {
    g[e.node := g[e.node][e.pos := Flip(At(g, e), true)]]
  }

  /** `augment(path)`: toggles the edges of the path from front to back. An
      edge that occurs several times in the path is toggled as often. */
  function Augment(g: Graph, p: seq<EdgeRef>): (g': Graph)
    requires ValidPath(g, p)
    ensures SameShape(g, g')
    decreases |p|
  {
    if p == [] then g else Augment(Toggle(g, p[0]), p[1..])
  }

  /** How often `e` occurs on the path. */
  function Count(p: seq<EdgeRef>, e: EdgeRef): nat {
    if p == [] then 0 else (if p[0] == e then 1 else 0) + Count(p[1..], e)
  }

  /** Each edge record ends up flipped exactly when it occurs an odd number
      of times on the path; endpoints never change. */
  lemma {:induction false} AugmentFlips(g: Graph, p: seq<EdgeRef>, e: EdgeRef)
    requires ValidPath(g, p) && ValidRef(g, e)
    ensures At(Augment(g, p), e) == Flip(At(g, e), Count(p, e) % 2 == 1)
    decreases |p|
  {
    if p != [] {
      var g1 := Toggle(g, p[0]);
      assert Augment(g, p) == Augment(g1, p[1..]);
      assert At(g1, e) == Flip(At(g, e), p[0] == e);
      AugmentFlips(g1, p[1..], e);
    }
  }

  /** A reference occurs at most once on a path without repetitions. */
  lemma {:induction false} DistinctCount(p: seq<EdgeRef>, e: EdgeRef)
    requires DistinctRefs(p)
    ensures Count(p, e) == if e in p then 1 else 0
  {
    if p != [] {
      var rest := p[1..];
      assert DistinctRefs(rest) by {
        forall a, b | 0 <= a < b < |rest| ensures rest[a] != rest[b] {
          assert rest[a] == p[a + 1] && rest[b] == p[b + 1];
        }
      }
      DistinctCount(rest, e);
      assert e in p <==> p[0] == e || e in rest;
      if p[0] == e {
        assert e !in rest by {
          forall k | 0 <= k < |rest| ensures rest[k] != e {
            assert rest[k] == p[k + 1];
          }
        }
      }
    }
  }

  /** On a path without repeated edges, `augment` flips exactly the edges of
      the path and leaves every other edge record as it was. */
  lemma AugmentDistinct(g: Graph, p: seq<EdgeRef>)
    requires ValidPath(g, p) && DistinctRefs(p)
    ensures forall e :: ValidRef(g, e) ==> At(Augment(g, p), e) == Flip(At(g, e), e in p)
  {
    forall e | ValidRef(g, e) ensures At(Augment(g, p), e) == Flip(At(g, e), e in p) {
      AugmentFlips(g, p, e);
      DistinctCount(p, e);
    }
  }

  /** Augmenting twice along the same path restores the graph. */
  lemma AugmentTwice(g: Graph, p: seq<EdgeRef>)
    requires ValidPath(g, p)
    ensures ValidPath(Augment(g, p), p)
    ensures Augment(Augment(g, p), p) == g
  {
    var g1 := Augment(g, p);
    var g2 := Augment(g1, p);
    forall v | 0 <= v < |g| ensures g2[v] == g[v] {
      forall k | 0 <= k < |g[v]| ensures g2[v][k] == g[v][k] {
        AugmentFlips(g, p, EdgeRef(v, k));
        AugmentFlips(g1, p, EdgeRef(v, k));
      }
    }
  }

  // ---------------------------------------------------------------------
  // Matchings and augmenting paths
  // ---------------------------------------------------------------------

  ghost predicate Matched(g: Graph, e: EdgeRef) {
    ValidRef(g, e) && At(g, e).matched
  }

  predicate Touches(ed: Edge, v: int) {
    ed.src == v || ed.dest == v
  }

  /** Two edge records have an endpoint in common. */
  predicate Share(x: Edge, y: Edge) {
    Touches(y, x.src) || Touches(y, x.dest)
  }

  /** The matched edge records. */
  function MatchedSet(g: Graph): (m: set<EdgeRef>)
    ensures forall e :: e in m <==> Matched(g, e)
  {
    set v, k | 0 <= v < |g| && 0 <= k < |g[v]| && g[v][k].matched :: EdgeRef(v, k)
  }

  /** No two different matched edge records share an endpoint. */
  ghost predicate IsMatching(g: Graph) {
    forall a, b :: Matched(g, a) && Matched(g, b) && a != b ==> !Share(At(g, a), At(g, b))
  }

  /** No matched edge record touches `v` (the source keeps these nodes in
      `unmatched`). */
  ghost predicate Free(g: Graph, v: int) {
    forall e :: Matched(g, e) ==> !Touches(At(g, e), v)
  }

  /** The `k`-th node visited by the path: the source of its first edge, then
      the destination of each edge in turn. */
  function Vertex(g: Graph, p: seq<EdgeRef>, k: int): int
    requires ValidPath(g, p) && |p| > 0 && 0 <= k <= |p|
  {
    if k == 0 then At(g, p[0]).src else At(g, p[k - 1]).dest
  }

  /** An augmenting path for the matching: an odd number of edges, each
      starting where the previous one ends, unmatched and matched in turn,
      visiting no node twice, from a free node to a free node. */
  ghost predicate AugmentingPath(g: Graph, p: seq<EdgeRef>) {
    && |p| % 2 == 1
    && ValidPath(g, p)
    && (forall k :: 0 <= k < |p| - 1 ==> At(g, p[k]).dest == At(g, p[k + 1]).src)
    && (forall k :: 0 <= k < |p| ==> At(g, p[k]).matched == (k % 2 == 1))
    && (forall i, j :: 0 <= i < j <= |p| ==> Vertex(g, p, i) != Vertex(g, p, j))
    && Free(g, Vertex(g, p, 0))
    && Free(g, Vertex(g, p, |p|))
  }

  /** The `k`-th edge of an augmenting path joins the `k`-th and the
      `k+1`-th node. */
  lemma PathEdge(g: Graph, p: seq<EdgeRef>, k: int)
    requires AugmentingPath(g, p) && 0 <= k < |p|
    ensures At(g, p[k]).src == Vertex(g, p, k) && At(g, p[k]).dest == Vertex(g, p, k + 1)
  {
    if k > 0 {
      assert At(g, p[k - 1]).dest == At(g, p[k]).src;
    }
  }

  /** An augmenting path uses no edge record twice. */
  lemma PathDistinct(g: Graph, p: seq<EdgeRef>)
    requires AugmentingPath(g, p)
    ensures DistinctRefs(p)
  {
    forall a, b | 0 <= a < b < |p| ensures p[a] != p[b] {
      PathEdge(g, p, a);
      PathEdge(g, p, b);
      assert Vertex(g, p, a) != Vertex(g, p, b);
    }
  }

  /** An endpoint of an unmatched edge of an augmenting path is touched by
      no matched edge record off the path. */
  lemma OffPathAvoids(g: Graph, p: seq<EdgeRef>, i: int, b: EdgeRef)
    requires IsMatching(g) && AugmentingPath(g, p)
    requires 0 <= i < |p| && i % 2 == 0
    requires Matched(g, b) && b !in p
    ensures !Touches(At(g, b), Vertex(g, p, i)) && !Touches(At(g, b), Vertex(g, p, i + 1))
  {
    if i > 0 {
      PathEdge(g, p, i - 1);
      assert Matched(g, p[i - 1]) && p[i - 1] != b;
    }
    if i + 1 < |p| {
      PathEdge(g, p, i + 1);
      assert Matched(g, p[i + 1]) && p[i + 1] != b;
    }
  }

  /** `g'` is `g` with exactly the edge records of `p` flipped. */
  ghost predicate FlippedAlong(g: Graph, p: seq<EdgeRef>, g': Graph) {
    && SameShape(g, g')
    && forall e :: ValidRef(g, e) ==> At(g', e) == Flip(At(g, e), e in p)
  }

  /** Two unmatched edges of an augmenting path share no endpoint. */
  lemma PathPairApart(g: Graph, p: seq<EdgeRef>, i: int, j: int)
    requires AugmentingPath(g, p)
    requires 0 <= i < |p| && 0 <= j < |p| && i % 2 == 0 && j % 2 == 0 && i != j
    ensures !Share(At(g, p[i]), At(g, p[j]))
  {
    PathEdge(g, p, i);
    PathEdge(g, p, j);
    if i < j {
      assert Vertex(g, p, i) != Vertex(g, p, j) && Vertex(g, p, i) != Vertex(g, p, j + 1);
      assert Vertex(g, p, i + 1) != Vertex(g, p, j) && Vertex(g, p, i + 1) != Vertex(g, p, j + 1);
    } else {
      assert Vertex(g, p, j) != Vertex(g, p, i) && Vertex(g, p, j) != Vertex(g, p, i + 1);
      assert Vertex(g, p, j + 1) != Vertex(g, p, i) && Vertex(g, p, j + 1) != Vertex(g, p, i + 1);
    }
  }

  /** After augmenting, two different matched edge records share no
      endpoint. */
  lemma AugmentedPair(g: Graph, p: seq<EdgeRef>, g': Graph, a: EdgeRef, b: EdgeRef)
    requires IsMatching(g) && AugmentingPath(g, p) && FlippedAlong(g, p, g')
    requires Matched(g', a) && Matched(g', b) && a != b
    ensures !Share(At(g', a), At(g', b))
  {
    assert ValidRef(g, a) && ValidRef(g, b);
    if a in p && b in p {
      var i :| 0 <= i < |p| && p[i] == a;
      var j :| 0 <= j < |p| && p[j] == b;
      PathPairApart(g, p, i, j);
    } else if a in p {
      var i :| 0 <= i < |p| && p[i] == a;
      PathEdge(g, p, i);
      OffPathAvoids(g, p, i, b);
    } else if b in p {
      var j :| 0 <= j < |p| && p[j] == b;
      PathEdge(g, p, j);
      OffPathAvoids(g, p, j, a);
    } else {
      assert Matched(g, a) && Matched(g, b);
    }
  }

  /** Augmenting a matching along an augmenting path yields a matching with
      one more matched edge record. */
  lemma AugmentGrowsMatching(g: Graph, p: seq<EdgeRef>)
    requires IsMatching(g) && AugmentingPath(g, p)
    ensures IsMatching(Augment(g, p))
    ensures |MatchedSet(Augment(g, p))| == |MatchedSet(g)| + 1
  {
    var g' := Augment(g, p);
    PathDistinct(g, p);
    AugmentDistinct(g, p);
    assert FlippedAlong(g, p, g');
    forall a, b | Matched(g', a) && Matched(g', b) && a != b
      ensures !Share(At(g', a), At(g', b))
    {
      AugmentedPair(g, p, g', a, b);
    }
    MatchedCount(g, p, g');
  }

  /** The edge records a path uses. */
  function Elems(p: seq<EdgeRef>): set<EdgeRef> {
    set e | e in p
  }

  /** After flipping along `p`, the matched set has lost the matched edges
      of `p` and gained its unmatched ones. */
  lemma MatchedSwap(g: Graph, p: seq<EdgeRef>, g': Graph)
    requires ValidPath(g, p) && FlippedAlong(g, p, g')
    ensures MatchedSet(g') == (MatchedSet(g) - Elems(p)) + (Elems(p) - MatchedSet(g))
  {
    forall e ensures e in MatchedSet(g') <==> e in (MatchedSet(g) - Elems(p)) + (Elems(p) - MatchedSet(g)) {
      if e in p {
        var k :| 0 <= k < |p| && p[k] == e;
        assert ValidRef(g, p[k]);
      }
    }
  }

  /** The unmatched edges of an augmenting path are those at even positions,
      one more than the matched ones at odd positions. */
  lemma PathHalves(g: Graph, p: seq<EdgeRef>)
    requires AugmentingPath(g, p) && DistinctRefs(p)
    ensures |Elems(p) - MatchedSet(g)| == |p| / 2 + 1
    ensures |Elems(p) * MatchedSet(g)| == |p| / 2
  {
    var half := |p| / 2;
    var evens := seq(half + 1, k requires 0 <= k <= half => p[2 * k]);
    var odds := seq(half, k requires 0 <= k < half => p[2 * k + 1]);
    EvenElems(g, p, evens);
    OddElems(g, p, odds);
    Chains.DistinctCard(evens);
    Chains.DistinctCard(odds);
  }

  lemma EvenElems(g: Graph, p: seq<EdgeRef>, evens: seq<EdgeRef>)
    requires AugmentingPath(g, p) && DistinctRefs(p)
    requires |evens| == |p| / 2 + 1 && forall k :: 0 <= k < |evens| ==> evens[k] == p[2 * k]
    ensures DistinctRefs(evens)
    ensures Elems(p) - MatchedSet(g) == set e | e in evens
  {
    forall e | e in Elems(p) - MatchedSet(g) ensures e in evens {
      var i :| 0 <= i < |p| && p[i] == e;
      assert ValidRef(g, p[i]);
      assert evens[i / 2] == e;
    }
    forall e | e in evens ensures e in Elems(p) - MatchedSet(g) {
      var k :| 0 <= k < |evens| && evens[k] == e;
      assert ValidRef(g, p[2 * k]);
    }
    forall a, b | 0 <= a < b < |evens| ensures evens[a] != evens[b] {
      assert p[2 * a] != p[2 * b];
    }
  }

  lemma OddElems(g: Graph, p: seq<EdgeRef>, odds: seq<EdgeRef>)
    requires AugmentingPath(g, p) && DistinctRefs(p)
    requires |odds| == |p| / 2 && forall k :: 0 <= k < |odds| ==> odds[k] == p[2 * k + 1]
    ensures DistinctRefs(odds)
    ensures Elems(p) * MatchedSet(g) == set e | e in odds
  {
    forall e | e in Elems(p) * MatchedSet(g) ensures e in odds {
      var i :| 0 <= i < |p| && p[i] == e;
      assert ValidRef(g, p[i]);
      assert odds[i / 2] == e;
    }
    forall e | e in odds ensures e in Elems(p) * MatchedSet(g) {
      var k :| 0 <= k < |odds| && odds[k] == e;
      assert ValidRef(g, p[2 * k + 1]);
    }
    forall a, b | 0 <= a < b < |odds| ensures odds[a] != odds[b] {
      assert p[2 * a + 1] != p[2 * b + 1];
    }
  }

  /** The counting half of `AugmentGrowsMatching`. */
  lemma MatchedCount(g: Graph, p: seq<EdgeRef>, g': Graph)
    requires AugmentingPath(g, p) && DistinctRefs(p) && FlippedAlong(g, p, g')
    ensures |MatchedSet(g')| == |MatchedSet(g)| + 1
  {
    MatchedSwap(g, p, g');
    PathHalves(g, p);
    SwapCard(MatchedSet(g), MatchedSet(g'), Elems(p));
  }

  /** Replacing the part of `m` inside `q` by the rest of `q` adds one
      element when `q` has one more element outside `m` than inside. */
  lemma SwapCard(m: set<EdgeRef>, m': set<EdgeRef>, q: set<EdgeRef>)
    requires m' == (m - q) + (q - m) && |q - m| == |q * m| + 1
    ensures |m'| == |m| + 1
  {
    DisjointUnionCard(m - q, q - m);
    DisjointUnionCard(m - q, q * m);
    assert m == (m - q) + (q * m);
  }

  lemma DisjointUnionCard(a: set<EdgeRef>, b: set<EdgeRef>)
    requires a * b == {}
    ensures |a + b| == |a| + |b|
  {
  }
}
