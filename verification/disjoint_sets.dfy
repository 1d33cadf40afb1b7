/** Union-find with member enumeration (`uf_data` in main.cpp).

    Every element `i` of `0..n-1` has a rank `rk[i]`, a parent index (itself
    when it is a root), a link `fchild[i]` to the next member of its class and,
    meaningful on roots only, `lchild[i]`, the last member of its class. The
    members of the class of a root `r` form the chain that starts at `r` and
    follows `fchild` to the sentinel `NIL`; `lchild[r]` is its tail, so that
    two classes are spliced in constant time.

    The model follows what the source's comments describe. The source itself
    initialises `lchild` to the sentinel and links the old tail to
    `fchild[ch]` instead of `ch`; module `AsWritten` models those two lines as
    they stand. */
module DisjointSets {
  import opened Chains

  /** The arrays of `uf_item`, one sequence per field. `value` is the payload
      returned by `get`. */
  datatype UnionFind<T> = UnionFind(
    value: seq<T>,
    rk: seq<nat>,
    parent: seq<int>,
    fchild: seq<int>,
    lchild: seq<int>)

  /** Parent pointers stay inside the universe and rank rises strictly from a
      non-root to its parent. */
  ghost predicate Forest(parent: seq<int>, rk: seq<nat>) {
    && |rk| == |parent|
    && (forall i :: 0 <= i < |parent| ==> 0 <= parent[i] < |parent|)
    && (forall i :: 0 <= i < |parent| && parent[i] != i ==> rk[i] < rk[parent[i]])
  }

  function MaxRank(rk: seq<nat>): (m: nat)
    ensures forall i :: 0 <= i < |rk| ==> rk[i] <= m
  {
    if rk == [] then 0
    else
      var m := MaxRank(rk[1..]);
      assert forall i :: 1 <= i < |rk| ==> rk[i] == rk[1..][i - 1];
      if rk[0] > m then rk[0] else m
  }

  /** The root reached from `i` by following parent pointers. Rank strictly
      increases along the way, which is why the walk ends. */
  function Root(parent: seq<int>, rk: seq<nat>, i: int): (r: int)
    requires Forest(parent, rk) && 0 <= i < |parent|
    ensures 0 <= r < |parent| && parent[r] == r
    ensures r != i ==> rk[i] < rk[r]
    decreases MaxRank(rk) - rk[i]
  {
    if parent[i] == i then i else Root(parent, rk, parent[i])
  }

  /** Number of parent steps from `i` to its root. */
  function Depth(parent: seq<int>, rk: seq<nat>, i: int): nat
    requires Forest(parent, rk) && 0 <= i < |parent|
    decreases MaxRank(rk) - rk[i]
  {
    if parent[i] == i then 0 else 1 + Depth(parent, rk, parent[i])
  }

  ghost predicate WellShaped<T>(u: UnionFind<T>) {
    && Forest(u.parent, u.rk)
    && |u.value| == |u.parent|
    && |u.fchild| == |u.parent|
    && |u.lchild| == |u.parent|
    && Links(u.fchild)
    && (forall i :: 0 <= i < |u.parent| ==> 0 <= u.lchild[i] < |u.parent|)
  }

  function Size<T>(u: UnionFind<T>): nat {
    |u.parent|
  }

  /** The representative of `i`, without compressing anything. */
  function Rep<T>(u: UnionFind<T>, i: int): int
    requires WellShaped(u) && 0 <= i < Size(u)
  {
    Root(u.parent, u.rk, i)
  }

  /** The members listed from `r`: the chain of `fchild` links. */
  function Members<T>(u: UnionFind<T>, r: int): seq<int>
    requires WellShaped(u) && 0 <= r < Size(u)
  {
    Chain(u.fchild, r, Size(u))
  }

  /** The list of root `r` is a complete chain, `lchild[r]` is its tail, and
      it holds exactly the elements whose representative is `r`. */
  ghost predicate ClassListed<T>(u: UnionFind<T>, r: int)
    requires WellShaped(u) && 0 <= r < Size(u)
  {
    var l := Members(u, r);
    && IsChain(u.fchild, r, l)
    && u.lchild[r] == Last(l)
    && forall k :: 0 <= k < Size(u) ==> (k in l <==> Rep(u, k) == r)
  }

  ghost predicate Valid<T>(u: UnionFind<T>) {
    && WellShaped(u)
    && Size(u) > 0
    && forall r {:trigger ClassListed(u, r)} :: 0 <= r < Size(u) && u.parent[r] == r ==> ClassListed(u, r)
  }

  /** `u'` describes the same partition as `u`, with the same ranks, lists
      and payloads; only parent pointers may differ. */
  ghost predicate SamePartition<T>(u: UnionFind<T>, u': UnionFind<T>) {
    && WellShaped(u) && WellShaped(u')
    && Size(u') == Size(u)
    && u'.value == u.value && u'.rk == u.rk
    && u'.fchild == u.fchild && u'.lchild == u.lchild
    && forall k :: 0 <= k < Size(u) ==> Rep(u', k) == Rep(u, k)
  }

  // ---------------------------------------------------------------------
  // Construction
  // ---------------------------------------------------------------------

  /** `uf_data(n)`: every element is a root of rank 0 whose class lists only
      itself. The source leaves the payload default-initialised; here it is
      `init`. */
  function Init<T>(n: int, init: T): (u: UnionFind<T>)
    requires n > 0
    ensures Valid(u) && Size(u) == n
    ensures forall i :: 0 <= i < n ==> Rep(u, i) == i && u.rk[i] == 0
    ensures forall i :: 0 <= i < n ==> Members(u, i) == [i] && u.lchild[i] == i
  {
    var u := UnionFind(seq(n, _ => init), seq(n, _ => 0), seq(n, k => k),
                       seq(n, _ => NIL), seq(n, k => k));
    InitShape(u, n);
    forall i | 0 <= i < n
      ensures Rep(u, i) == i && Members(u, i) == [i] && ClassListed(u, i)
    {
      InitClass(u, n, i);
    }
    u
  }

  /** The arrays `uf_data(n)` starts from: every element its own parent, no
      successor, itself as tail. */
  ghost predicate Singletons<T>(u: UnionFind<T>, n: int) {
    && |u.value| == n && |u.rk| == n && |u.parent| == n && |u.fchild| == n && |u.lchild| == n
    && forall k :: 0 <= k < n ==> u.rk[k] == 0 && u.parent[k] == k && u.fchild[k] == NIL && u.lchild[k] == k
  }

  lemma InitShape<T>(u: UnionFind<T>, n: int)
    requires Singletons(u, n)
    ensures WellShaped(u) && Size(u) == n
    ensures forall k :: 0 <= k < n ==> Rep(u, k) == k
  {
    assert Forest(u.parent, u.rk);
  }

  lemma InitClass<T>(u: UnionFind<T>, n: int, i: int)
    requires Singletons(u, n) && 0 <= i < n
    ensures WellShaped(u)
    ensures Rep(u, i) == i && Members(u, i) == [i] && ClassListed(u, i)
  {
    InitShape(u, n);
    assert Chain(u.fchild, NIL, n - 1) == [];
    assert IsChain(u.fchild, i, [i]);
  }

  // ---------------------------------------------------------------------
  // Find with path compression
  // ---------------------------------------------------------------------

  lemma {:induction false} CompressStep(parent: seq<int>, rk: seq<nat>, i: int, k: int)
    requires Forest(parent, rk) && 0 <= i < |parent| && 0 <= k < |parent|
    requires Forest(parent[i := Root(parent, rk, i)], rk)
    ensures Root(parent[i := Root(parent, rk, i)], rk, k) == Root(parent, rk, k)
    ensures Depth(parent[i := Root(parent, rk, i)], rk, k) <= Depth(parent, rk, k)
    decreases MaxRank(rk) - rk[k]
  {
    var parent' := parent[i := Root(parent, rk, i)];
    if parent[k] != k {
      if k == i {
        assert parent'[Root(parent, rk, i)] == Root(parent, rk, i);
        assert Depth(parent, rk, k) >= 1;
      } else {
        CompressStep(parent, rk, i, parent[k]);
      }
    }
  }

  /** Pointing `i` straight at its root keeps every representative and
      shortens no chain into a longer one. */
  lemma Compress<T>(u: UnionFind<T>, i: int)
    requires Valid(u) && 0 <= i < Size(u)
    ensures var u' := u.(parent := u.parent[i := Rep(u, i)]);
      && Valid(u')
      && SamePartition(u, u')
      && forall k :: 0 <= k < Size(u) ==> Depth(u'.parent, u'.rk, k) <= Depth(u.parent, u.rk, k)
  {
    var u' := u.(parent := u.parent[i := Rep(u, i)]);
    assert Forest(u'.parent, u'.rk);
    forall k | 0 <= k < Size(u)
      ensures Rep(u', k) == Rep(u, k)
      ensures Depth(u'.parent, u'.rk, k) <= Depth(u.parent, u.rk, k)
    {
      CompressStep(u.parent, u.rk, i, k);
    }
    SamePartitionValid(u, u');
  }

  /** Validity only depends on the partition, ranks and lists. */
  lemma SamePartitionValid<T>(u: UnionFind<T>, u': UnionFind<T>)
    requires Valid(u) && SamePartition(u, u')
    ensures Valid(u')
  {
    forall r | 0 <= r < Size(u') && u'.parent[r] == r
      ensures ClassListed(u', r)
    {
      assert Rep(u', r) == r;
      assert u.parent[r] == r;
      assert ClassListed(u, r);
      assert Members(u', r) == Members(u, r);
    }
  }

  lemma RootsStayRoots<T>(u: UnionFind<T>, u': UnionFind<T>, r: int)
    requires SamePartition(u, u') && 0 <= r < Size(u) && u.parent[r] == r
    ensures u'.parent[r] == r
  {
    assert Rep(u', r) == Rep(u, r) == r;
  }

  /** `parent(i)`: the representative of `i`. `i`, and any other element
      whose pointer changes, is made to point at the root; no representative
      changes. */
  method Find<T>(u: UnionFind<T>, i: int) returns (u': UnionFind<T>, r: int)
    requires Valid(u) && 0 <= i < Size(u)
    ensures Valid(u') && SamePartition(u, u')
    ensures r == Rep(u, i) && u'.parent[r] == r
    ensures u'.parent[i] == r
    ensures forall k :: 0 <= k < Size(u) && u'.parent[k] != u.parent[k] ==> u'.parent[k] == r
    ensures forall k :: 0 <= k < Size(u) ==>
      Depth(u'.parent, u'.rk, k) <= Depth(u.parent, u.rk, k)
    decreases MaxRank(u.rk) - u.rk[i]
  {
    if u.parent[i] == i {
      u', r := u, i;
    } else {
      var u1;
      u1, r := Find(u, u.parent[i]);
      Compress(u1, i);
      u' := u1.(parent := u1.parent[i := r]);
    }
  }

  // ---------------------------------------------------------------------
  // Join: union by rank and list splicing
  // ---------------------------------------------------------------------

  /** Redirecting the tail of `pr`'s list to `ch` lists `pr`'s members
      followed by `ch`'s. */
  lemma SpliceLists<T>(u: UnionFind<T>, pr: int, ch: int)
    requires WellShaped(u) && 0 <= pr < Size(u) && 0 <= ch < Size(u)
    requires IsChain(u.fchild, pr, Members(u, pr)) && u.lchild[pr] == Last(Members(u, pr))
    requires IsChain(u.fchild, ch, Members(u, ch))
    requires Disjoint(Members(u, pr), Members(u, ch))
    ensures Links(u.fchild[u.lchild[pr] := ch])
    ensures Chain(u.fchild[u.lchild[pr] := ch], pr, Size(u)) == Members(u, pr) + Members(u, ch)
    ensures IsChain(u.fchild[u.lchild[pr] := ch], pr, Members(u, pr) + Members(u, ch))
  {
    var lp, lc := Members(u, pr), Members(u, ch);
    SpliceChains(u.fchild, pr, lp, ch, lc);
    DistinctLength(lp + lc, Size(u));
    ChainOfIsChain(u.fchild[Last(lp) := ch], pr, lp + lc, Size(u));
  }

  /** `attach(pr, ch)`: the list of `ch` is appended to the list of `pr`
      through the tail pointer of `pr`, and `ch`'s tail becomes `pr`'s. */
  function Attach<T>(u: UnionFind<T>, pr: int, ch: int): (u': UnionFind<T>)
    requires WellShaped(u) && 0 <= pr < Size(u) && 0 <= ch < Size(u)
    requires IsChain(u.fchild, pr, Members(u, pr)) && u.lchild[pr] == Last(Members(u, pr))
    requires IsChain(u.fchild, ch, Members(u, ch)) && u.lchild[ch] == Last(Members(u, ch))
    requires Disjoint(Members(u, pr), Members(u, ch))
    ensures WellShaped(u') && Size(u') == Size(u)
    ensures u'.parent == u.parent && u'.rk == u.rk && u'.value == u.value
    ensures Members(u', pr) == Members(u, pr) + Members(u, ch)
    ensures IsChain(u'.fchild, pr, Members(u', pr))
    ensures u'.lchild[pr] == u.lchild[ch]
    ensures forall x :: 0 <= x < Size(u) && x !in Members(u, pr) ==> u'.fchild[x] == u.fchild[x]
    ensures forall x :: 0 <= x < Size(u) && x != pr ==> u'.lchild[x] == u.lchild[x]
  {
    SpliceLists(u, pr, ch);
    u.(fchild := u.fchild[u.lchild[pr] := ch], lchild := u.lchild[pr := u.lchild[ch]])
  }

  /** The class of root `a` has been absorbed into that of root `s`: `a` now
      points at `s`, the list of `s` is the old list of `s` followed by that
      of `a`, its tail is `a`'s old tail, and every other root keeps its
      list. */
  ghost predicate Absorbed<T>(u: UnionFind<T>, u': UnionFind<T>, s: int, a: int)
    requires Valid(u) && Valid(u') && Size(u') == Size(u)
    requires 0 <= s < Size(u) && 0 <= a < Size(u)
  {
    && u'.parent[a] == s && u'.parent[s] == s
    && Members(u', s) == Members(u, s) + Members(u, a)
    && u'.lchild[s] == u.lchild[a]
    && u'.value == u.value
    && forall r :: 0 <= r < Size(u) && u'.parent[r] == r && r != s ==> Members(u', r) == Members(u, r)
  }

  lemma {:induction false} LinkStep(parent: seq<int>, rk: seq<nat>, parent': seq<int>, rk': seq<nat>,
                                    pr: int, ch: int, k: int)
    requires Forest(parent, rk) && Forest(parent', rk')
    requires 0 <= pr < |parent| && 0 <= ch < |parent| && 0 <= k < |parent|
    requires parent[pr] == pr && parent[ch] == ch && pr != ch
    requires parent' == parent[ch := pr]
    ensures Root(parent', rk', k) == if Root(parent, rk, k) == ch then pr else Root(parent, rk, k)
    decreases MaxRank(rk) - rk[k]
  {
    if parent[k] != k {
      LinkStep(parent, rk, parent', rk', pr, ch, parent[k]);
    }
  }

  /** A list whose links are all kept is listed unchanged. */
  lemma ListUnchanged<T>(u: UnionFind<T>, u': UnionFind<T>, r: int)
    requires WellShaped(u) && WellShaped(u') && Size(u') == Size(u) && 0 <= r < Size(u)
    requires IsChain(u.fchild, r, Members(u, r))
    requires forall x :: 0 <= x < |Members(u, r)| ==> u'.fchild[Members(u, r)[x]] == u.fchild[Members(u, r)[x]]
    ensures Members(u', r) == Members(u, r)
    ensures IsChain(u'.fchild, r, Members(u', r))
  {
    var l := Members(u, r);
    IsChainFrame(u.fchild, u'.fchild, r, l);
    DistinctLength(l, Size(u));
    ChainOfIsChain(u'.fchild, r, l, Size(u));
  }

  /** After a link, a root other than `pr` still lists exactly its class. */
  lemma UntouchedClass<T>(u: UnionFind<T>, u': UnionFind<T>, pr: int, ch: int, r: int)
    requires Valid(u) && WellShaped(u') && Size(u') == Size(u)
    requires 0 <= pr < Size(u) && 0 <= ch < Size(u) && 0 <= r < Size(u)
    requires u.parent[r] == r && u.parent[pr] == pr && r != pr && r != ch
    requires forall x :: 0 <= x < Size(u) && x !in Members(u, pr) ==> u'.fchild[x] == u.fchild[x]
    requires forall x :: 0 <= x < Size(u) && x != pr ==> u'.lchild[x] == u.lchild[x]
    requires forall k :: 0 <= k < Size(u) ==> Rep(u', k) == if Rep(u, k) == ch then pr else Rep(u, k)
    ensures ClassListed(u', r)
    ensures Members(u', r) == Members(u, r)
  {
    assert ClassListed(u, r);
    var l := Members(u, r);
    forall x | 0 <= x < |l| ensures u'.fchild[l[x]] == u.fchild[l[x]] {
      assert ClassListed(u, pr);
      assert Rep(u, l[x]) == r;
      assert l[x] !in Members(u, pr);
    }
    ListUnchanged(u, u', r);
  }

  /** The lists of two different roots are complete chains with their
      tails recorded, and share no element. */
  lemma RootLists<T>(u: UnionFind<T>, a: int, b: int)
    requires Valid(u) && 0 <= a < Size(u) && 0 <= b < Size(u) && a != b
    requires u.parent[a] == a && u.parent[b] == b
    ensures IsChain(u.fchild, a, Members(u, a)) && u.lchild[a] == Last(Members(u, a))
    ensures IsChain(u.fchild, b, Members(u, b)) && u.lchild[b] == Last(Members(u, b))
    ensures Disjoint(Members(u, a), Members(u, b))
  {
    assert ClassListed(u, a) && ClassListed(u, b);
    forall x, y | 0 <= x < |Members(u, a)| && 0 <= y < |Members(u, b)|
      ensures Members(u, a)[x] != Members(u, b)[y]
    {
      assert Rep(u, Members(u, a)[x]) == a;
      assert Rep(u, Members(u, b)[y]) == b;
    }
  }

  /** After the link, `ch` belongs to `pr`'s class and every list is again
      the list of its class. */
  lemma LinkCorrect<T>(u: UnionFind<T>, linked: UnionFind<T>, u': UnionFind<T>, pr: int, ch: int)
    requires Valid(u) && 0 <= pr < Size(u) && 0 <= ch < Size(u) && pr != ch
    requires u.parent[pr] == pr && u.parent[ch] == ch
    requires WellShaped(linked) && linked.fchild == u.fchild && linked.lchild == u.lchild
    requires linked.parent == u.parent[ch := pr] && linked.value == u.value
    requires IsChain(u.fchild, pr, Members(u, pr)) && u.lchild[pr] == Last(Members(u, pr))
    requires IsChain(u.fchild, ch, Members(u, ch)) && u.lchild[ch] == Last(Members(u, ch))
    requires Disjoint(Members(u, pr), Members(u, ch))
    requires u' == Attach(linked, pr, ch)
    ensures Valid(u') && Size(u') == Size(u)
    ensures forall k :: 0 <= k < Size(u) ==> Rep(u', k) == if Rep(u, k) == ch then pr else Rep(u, k)
    ensures Absorbed(u, u', pr, ch)
  {
    forall k | 0 <= k < Size(u)
      ensures Rep(u', k) == if Rep(u, k) == ch then pr else Rep(u, k)
    {
      LinkStep(u.parent, u.rk, linked.parent, linked.rk, pr, ch, k);
    }
    assert Members(linked, pr) == Members(u, pr) && Members(linked, ch) == Members(u, ch);
    forall r | 0 <= r < Size(u) && u'.parent[r] == r && r != pr
      ensures ClassListed(u', r) && Members(u', r) == Members(u, r)
    {
      UntouchedClass(u, u', pr, ch, r);
    }
    assert ClassListed(u, pr) && ClassListed(u, ch);
    assert ClassListed(u', pr);
  }

  /** `m_data[ch].parent = pr; attach(pr, ch);` and, when `bump`, `++rk[pr]`. */
  function Link<T>(u: UnionFind<T>, pr: int, ch: int, bump: bool): (u': UnionFind<T>)
    requires Valid(u) && 0 <= pr < Size(u) && 0 <= ch < Size(u) && pr != ch
    requires u.parent[pr] == pr && u.parent[ch] == ch
    requires if bump then u.rk[ch] == u.rk[pr] else u.rk[ch] < u.rk[pr]
    ensures Valid(u') && Size(u') == Size(u)
    ensures forall k :: 0 <= k < Size(u) ==> Rep(u', k) == if Rep(u, k) == ch then pr else Rep(u, k)
    ensures Absorbed(u, u', pr, ch)
    ensures u'.rk == if bump then u.rk[pr := u.rk[pr] + 1] else u.rk
  {
    var rk' := if bump then u.rk[pr := u.rk[pr] + 1] else u.rk;
    var linked := u.(parent := u.parent[ch := pr], rk := rk');
    assert Forest(linked.parent, linked.rk);
    RootLists(u, pr, ch);
    var u' := Attach(linked, pr, ch);
    LinkCorrect(u, linked, u', pr, ch);
    u'
  }

  /** What union by rank does to the classes of two roots `pi` and `pj`:
      nothing when they are the same root; otherwise the root of lower rank
      is absorbed by the other, and on equal ranks `pi` is absorbed by `pj`,
      whose rank grows by one. */
  ghost predicate UnionByRank<T>(u: UnionFind<T>, u': UnionFind<T>, pi: int, pj: int)
    requires Valid(u) && Valid(u') && Size(u') == Size(u)
    requires 0 <= pi < Size(u) && 0 <= pj < Size(u)
  {
    && (pi == pj ==> SamePartition(u, u'))
    && (pi != pj && u.rk[pi] < u.rk[pj] ==> Absorbed(u, u', pj, pi) && u'.rk == u.rk)
    && (pi != pj && u.rk[pi] > u.rk[pj] ==> Absorbed(u, u', pi, pj) && u'.rk == u.rk)
    && (pi != pj && u.rk[pi] == u.rk[pj] ==>
          Absorbed(u, u', pj, pi) && u'.rk == u.rk[pj := u.rk[pj] + 1])
  }

  /** The union-by-rank step of `join` on two roots `pi` and `pj`. */
  function UnionRoots<T>(u: UnionFind<T>, pi: int, pj: int): (u': UnionFind<T>)
    requires Valid(u) && 0 <= pi < Size(u) && 0 <= pj < Size(u)
    requires u.parent[pi] == pi && u.parent[pj] == pj
    ensures Valid(u') && Size(u') == Size(u)
    ensures forall k :: 0 <= k < Size(u) ==>
      Rep(u', k) == if Rep(u, k) == pi || Rep(u, k) == pj then Rep(u', pj) else Rep(u, k)
    ensures UnionByRank(u, u', pi, pj)
    ensures pi == pj ==> u' == u
  {
    if pi == pj then u
    else if u.rk[pi] < u.rk[pj] then Link(u, pj, pi, false)
    else if u.rk[pi] > u.rk[pj] then Link(u, pi, pj, false)
    else Link(u, pj, pi, true)
  }

  /** Union by rank reads only the partition, ranks and lists, so it is the
      same seen from any structure with the same partition. */
  lemma UnionByRankTransfer<T>(u: UnionFind<T>, u2: UnionFind<T>, u': UnionFind<T>, pi: int, pj: int)
    requires Valid(u) && Valid(u2) && Valid(u') && SamePartition(u, u2) && Size(u') == Size(u)
    requires 0 <= pi < Size(u) && 0 <= pj < Size(u)
    requires UnionByRank(u2, u', pi, pj)
    ensures UnionByRank(u, u', pi, pj)
  {
    assert forall r :: 0 <= r < Size(u) ==> Members(u2, r) == Members(u, r);
  }

  /** The classes of `i` and `j` have become one class, that of `i`; every
      other element keeps its representative. */
  ghost predicate Merged<T>(u: UnionFind<T>, u': UnionFind<T>, i: int, j: int)
    requires Valid(u) && Valid(u') && Size(u') == Size(u)
    requires 0 <= i < Size(u) && 0 <= j < Size(u)
  {
    && Rep(u', i) == Rep(u', j)
    && forall k :: 0 <= k < Size(u) ==>
         Rep(u', k) == if Rep(u, k) == Rep(u, i) || Rep(u, k) == Rep(u, j) then Rep(u', i) else Rep(u, k)
  }

  /** The two finds that open `join`: `pi = parent(i); pj = parent(j);`. */
  method FindBoth<T>(u: UnionFind<T>, i: int, j: int) returns (u': UnionFind<T>, pi: int, pj: int)
    requires Valid(u) && 0 <= i < Size(u) && 0 <= j < Size(u)
    ensures Valid(u') && SamePartition(u, u')
    ensures pi == Rep(u, i) && pj == Rep(u, j)
    ensures u'.parent[pi] == pi && u'.parent[pj] == pj
  {
    var u1;
    u1, pi := Find(u, i);
    u', pj := Find(u1, j);
    RootsStayRoots(u1, u', pi);
    SamePartitionTrans(u, u1, u');
  }

  lemma SamePartitionTrans<T>(u: UnionFind<T>, u1: UnionFind<T>, u2: UnionFind<T>)
    requires SamePartition(u, u1) && SamePartition(u1, u2)
    ensures SamePartition(u, u2)
  {
  }

  /** The finds of `join` change no class, so what `UnionRoots` does to the
      compressed structure is what `join` does to the original one. */
  lemma JoinThroughFinds<T>(u: UnionFind<T>, u2: UnionFind<T>, u': UnionFind<T>,
                            i: int, j: int, pi: int, pj: int)
    requires Valid(u) && Valid(u2) && Valid(u') && Size(u') == Size(u)
    requires SamePartition(u, u2)
    requires 0 <= i < Size(u) && 0 <= j < Size(u)
    requires pi == Rep(u, i) && pj == Rep(u, j)
    requires forall k :: 0 <= k < Size(u) ==>
      Rep(u', k) == if Rep(u2, k) == pi || Rep(u2, k) == pj then Rep(u', pj) else Rep(u2, k)
    requires UnionByRank(u2, u', pi, pj)
    ensures Merged(u, u', i, j)
    ensures UnionByRank(u, u', Rep(u, i), Rep(u, j))
  {
    assert Rep(u', i) == Rep(u', Rep(u, j));
    UnionByRankTransfer(u, u2, u', Rep(u, i), Rep(u, j));
  }

  /** `join(i, j)`: merges the classes of `i` and `j` (see `Merged`) by rank
      (see `UnionByRank`). */
  method Join<T>(u: UnionFind<T>, i: int, j: int) returns (u': UnionFind<T>)
    requires Valid(u) && 0 <= i < Size(u) && 0 <= j < Size(u)
    ensures Valid(u') && Size(u') == Size(u)
    ensures Merged(u, u', i, j)
    ensures UnionByRank(u, u', Rep(u, i), Rep(u, j))
  {
    var u2, pi, pj := FindBoth(u, i, j);
    u' := UnionRoots(u2, pi, pj);
    JoinThroughFinds(u, u2, u', i, j, pi, pj);
  }

  // ---------------------------------------------------------------------
  // Enumeration and payload
  // ---------------------------------------------------------------------

  /** `next(i)`: the member after `i` in its class's list, or `NIL` when
      `i` is the last one, the tail recorded at its root. */
  function Next<T>(u: UnionFind<T>, i: int): (n: int)
    requires WellShaped(u) && 0 <= i < Size(u)
    ensures -1 <= n < Size(u)
    ensures Valid(u) ==> (n == NIL <==> i == u.lchild[Rep(u, i)])
    ensures Valid(u) && n != NIL ==> Rep(u, n) == Rep(u, i)
  {
    NextInClass(u, i);
    u.fchild[i]
  }

  lemma NextInClass<T>(u: UnionFind<T>, i: int)
    requires WellShaped(u) && 0 <= i < Size(u)
    ensures Valid(u) ==> (u.fchild[i] == NIL <==> i == u.lchild[Rep(u, i)])
    ensures Valid(u) && u.fchild[i] != NIL ==> Rep(u, u.fchild[i]) == Rep(u, i)
  {
    if Valid(u) {
      var r := Rep(u, i);
      assert ClassListed(u, r);
      var l := Members(u, r);
      var p :| 0 <= p < |l| && l[p] == i;
      NextInChain(u.fchild, r, l, p);
      if p < |l| - 1 {
        assert l[p + 1] in l && l[p + 1] != NIL;
        assert Last(l) != i;
      }
    }
  }

  /** Walking from a root with `next` until the sentinel visits every member
      of its class exactly once and no other element; the last one visited is
      the root's `lchild`. */
  method Enumerate<T>(u: UnionFind<T>, r: int) returns (s: seq<int>)
    requires Valid(u) && 0 <= r < Size(u) && u.parent[r] == r
    ensures |s| > 0 && s[0] == r && Last(s) == u.lchild[r]
    ensures Distinct(s)
    ensures forall k :: 0 <= k < |s| ==> 0 <= s[k] < Size(u)
    ensures forall k :: 0 <= k < Size(u) ==> (k in s <==> Rep(u, k) == r)
  {
    ghost var l := Members(u, r);
    assert ClassListed(u, r);
    s := [];
    var x := r;
    ghost var p := 0;
    while x != NIL
      invariant 0 <= p <= |l| && s == l[..p]
      invariant x == if p < |l| then l[p] else NIL
      decreases |l| - p
    {
      s := s + [x];
      x := Next(u, x);
      p := p + 1;
    }
    assert s == l;
  }

  /** `get(i)`: the payload of `i`; storing it back through the reference
      changes nothing. */
  function Get<T>(u: UnionFind<T>, i: int): (v: T)
    requires Valid(u) && 0 <= i < Size(u)
    ensures SetValue(u, i, v) == u
  {
    u.value[i]
  }

  /** Writing through the reference `get(i)` returns: the payload of `i`
      becomes `v`, every other payload and the partition are untouched. */
  function SetValue<T>(u: UnionFind<T>, i: int, v: T): (u': UnionFind<T>)
    requires Valid(u) && 0 <= i < Size(u)
    ensures Valid(u') && Size(u') == Size(u)
    ensures u'.value[i] == v
    ensures forall k :: 0 <= k < Size(u) && k != i ==> u'.value[k] == u.value[k]
    ensures forall k :: 0 <= k < Size(u) ==> Rep(u', k) == Rep(u, k) && Members(u', k) == Members(u, k)
  {
    var u' := u.(value := u.value[i := v]);
    assert forall r :: 0 <= r < Size(u) && u'.parent[r] == r ==> ClassListed(u, r);
    u'
  }
}
