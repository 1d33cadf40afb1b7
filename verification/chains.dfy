/** Singly linked lists threaded through an index array.

    The disjoint-set structure keeps, for every class, the list of its members
    as a chain of `fchild` links that ends in a sentinel. This module states
    what a well-formed chain is and proves the facts the splice in
    `DisjointSets.Attach` relies on. */
module Chains {

  /** The sentinel that ends a chain (the source writes it as `(size_t)-1`). */
  const NIL: int := -1

  /** Every link is either an index into the array or the sentinel. */
  ghost predicate Links(next: seq<int>) {
    forall k :: 0 <= k < |next| ==> -1 <= next[k] < |next|
  }

  /** The elements met when following `next` from `x`, at most `fuel` of
      them, stopping at the sentinel. */
  function Chain(next: seq<int>, x: int, fuel: nat): (s: seq<int>)
    requires Links(next) && -1 <= x < |next|
    ensures |s| <= fuel
    ensures forall k :: 0 <= k < |s| ==> 0 <= s[k] < |next|
    ensures x != NIL && fuel > 0 ==> |s| > 0 && s[0] == x
    decreases fuel
  {
    if fuel == 0 || x == NIL then [] else [x] + Chain(next, next[x], fuel - 1)
  }

  /** No element occurs twice. Stated on `seq<int>` rather than generically
      (`Graphs.DistinctRefs` says the same of edge references): a generic
      predicate makes the solver box every element, which slows every list
      proof that mentions it. */
  ghost predicate Distinct(s: seq<int>) {
    forall a, b :: 0 <= a < b < |s| ==> s[a] != s[b]
  }

  ghost predicate Disjoint(s: seq<int>, t: seq<int>) {
    forall a, b :: 0 <= a < |s| && 0 <= b < |t| ==> s[a] != t[b]
  }

  /** `s` is the complete chain that starts at `x`: consecutive elements are
      linked, the last one links to the sentinel and nothing occurs twice. */
  ghost predicate IsChain(next: seq<int>, x: int, s: seq<int>) {
    && |s| > 0
    && s[0] == x
    && (forall k :: 0 <= k < |s| ==> 0 <= s[k] < |next|)
    && (forall k :: 0 <= k < |s| - 1 ==> next[s[k]] == s[k + 1])
    && next[s[|s| - 1]] == NIL
    && Distinct(s)
  }

  function Last(s: seq<int>): int
    requires |s| > 0
  {
    s[|s| - 1]
  }

  /** In a complete chain, the link of each element is the next element, or
      the sentinel after the last one. */
  lemma NextInChain(next: seq<int>, x: int, s: seq<int>, p: int)
    requires IsChain(next, x, s) && 0 <= p < |s|
    ensures next[s[p]] == if p == |s| - 1 then NIL else s[p + 1]
  {
  }

  /** A complete chain is what `Chain` computes, given enough fuel. */
  lemma {:induction false} ChainOfIsChain(next: seq<int>, x: int, s: seq<int>, fuel: nat)
    requires Links(next) && IsChain(next, x, s) && |s| <= fuel
    ensures Chain(next, x, fuel) == s
    decreases |s|
  {
    assert Chain(next, x, fuel) == [x] + Chain(next, next[x], fuel - 1);
    if |s| == 1 {
      assert next[x] == NIL;
    } else {
      var t := s[1..];
      forall k | 0 <= k < |t| - 1 ensures next[t[k]] == t[k + 1] {
        assert t[k] == s[k + 1] && t[k + 1] == s[k + 2];
      }
      forall a, b | 0 <= a < b < |t| ensures t[a] != t[b] {
        assert t[a] == s[a + 1] && t[b] == s[b + 1];
      }
      assert IsChain(next, next[x], t);
      ChainOfIsChain(next, next[x], t, fuel - 1);
      assert s == [x] + t;
    }
  }

  /** The elements of a sequence without repetitions, as a set, have as many
      elements as the sequence. Generic, so its requires spells out
      `Distinct` for any element type. */
  lemma {:induction false} DistinctCard<X>(s: seq<X>)
    requires forall a, b :: 0 <= a < b < |s| ==> s[a] != s[b]
    ensures |set x | x in s| == |s|
  {
    if s != [] {
      var init := s[..|s| - 1];
      DistinctCard(init);
      var last := s[|s| - 1];
      assert (set x | x in s) == (set x | x in init) + {last};
      assert last !in (set x | x in init);
    }
  }

  /** A sequence without repetitions drawn from `0..n-1` is at most `n` long. */
  lemma DistinctLength(s: seq<int>, n: nat)
    requires Distinct(s)
    requires forall k :: 0 <= k < |s| ==> 0 <= s[k] < n
    ensures |s| <= n
  {
    var range := seq(n, k => k);
    var elems := set x | x in s;
    var all := set x | x in range;
    DistinctCard(s);
    DistinctCard(range);
    forall x | x in elems ensures x in all {
      assert range[x] == x;
    }
    assert all == elems + (all - elems);
  }

  /** Changing links outside a chain does not disturb it. */
  lemma IsChainFrame(next: seq<int>, next': seq<int>, x: int, s: seq<int>)
    requires IsChain(next, x, s) && |next'| == |next|
    requires forall k :: 0 <= k < |s| ==> next'[s[k]] == next[s[k]]
    ensures IsChain(next', x, s)
  {
  }

  /** Redirecting the last link of one chain to the head of another,
      disjoint, chain yields the concatenated chain. */
  lemma SpliceChains(next: seq<int>, x: int, s: seq<int>, y: int, t: seq<int>)
    requires IsChain(next, x, s) && IsChain(next, y, t) && Disjoint(s, t)
    ensures IsChain(next[Last(s) := y], x, s + t)
  {
    var next' := next[Last(s) := y];
    var st := s + t;
    forall k | 0 <= k < |st| - 1
      ensures next'[st[k]] == st[k + 1]
    {
      if k < |s| - 1 {
        assert st[k] == s[k] != Last(s);
      } else if k == |s| - 1 {
      } else {
        assert st[k] == t[k - |s|];
        assert t[k - |s|] != Last(s);
      }
    }
    assert st[|st| - 1] == Last(t) != Last(s);
    forall a, b | 0 <= a < b < |st|
      ensures st[a] != st[b]
    {
      if b < |s| {
      } else if a >= |s| {
        assert st[a] == t[a - |s|] && st[b] == t[b - |s|];
      } else {
        assert st[b] == t[b - |s|];
      }
    }
  }

  /** Redirecting the last link of one chain to the SECOND element of
      another, disjoint, chain yields the first chain followed by the other
      without its head. */
  lemma SpliceTail(next: seq<int>, x: int, s: seq<int>, y: int, t: seq<int>)
    requires IsChain(next, x, s) && IsChain(next, y, t) && Disjoint(s, t)
    ensures IsChain(next[Last(s) := next[y]], x, s + t[1..])
  {
    var rest := t[1..];
    if |t| == 1 {
      assert next[Last(s) := next[y]] == next;
      assert s + rest == s;
    } else {
      assert next[y] == t[1];
      forall k | 0 <= k < |rest| - 1 ensures next[rest[k]] == rest[k + 1] {
        assert rest[k] == t[k + 1] && rest[k + 1] == t[k + 2];
      }
      forall a, b | 0 <= a < b < |rest| ensures rest[a] != rest[b] {
        assert rest[a] == t[a + 1] && rest[b] == t[b + 1];
      }
      assert IsChain(next, t[1], rest);
      forall a, b | 0 <= a < |s| && 0 <= b < |rest| ensures s[a] != rest[b] {
        assert rest[b] == t[b + 1];
      }
      SpliceChains(next, x, s, t[1], rest);
    }
  }
}
