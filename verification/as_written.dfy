/** The constructor and `attach` of `uf_data` as main.cpp writes
    them, next to the corrected definitions in `DisjointSets`.

    - The constructor sets `lchild` (and `fchild`) to the sentinel, so the
      first `attach` writes to `m_data[(size_t)-1].fchild`, outside the
      array.
    - `attach` links the old tail of `pr` to `fchild[ch]`, the second member
      of `ch`'s list, instead of to `ch` itself, so the absorbed root is no
      longer listed in its new class. */
module AsWritten {
  import opened Chains
  import opened DisjointSets

  datatype Option<T> = None | Some(value: T)

  /** The arrays have matching lengths; no link is assumed to be in range. */
  ghost predicate Arrays<T>(u: UnionFind<T>) {
    && |u.value| == |u.parent| && |u.rk| == |u.parent|
    && |u.fchild| == |u.parent| && |u.lchild| == |u.parent|
  }

  /** `uf_data(n)` as written: every element its own root of rank 0, with
      both list pointers set to the sentinel. The source leaves the payload
      uninitialised; here it is `init`. */
  function InitAsWritten<T>(n: int, init: T): (u: UnionFind<T>)
    requires n > 0
    ensures Arrays(u) && Size(u) == n
    ensures forall i :: 0 <= i < n ==> u.parent[i] == i && u.rk[i] == 0
    ensures forall i :: 0 <= i < n ==> !(0 <= u.lchild[i] < n)
  {
    UnionFind(seq(n, _ => init), seq(n, _ => 0), seq(n, k => k), seq(n, _ => NIL), seq(n, _ => NIL))
  }

  /** `attach(pr, ch)` as written. The write goes to `m_data[lchild[pr]]`;
      when that index is outside the array the access is undefined and the
      result is `None`. */
  function AttachAsWritten<T>(u: UnionFind<T>, pr: int, ch: int): (r: Option<UnionFind<T>>)
    requires Arrays(u) && 0 <= pr < Size(u) && 0 <= ch < Size(u)
    ensures r.None? <==> !(0 <= u.lchild[pr] < Size(u))
    ensures r.Some? ==> Arrays(r.value) && Size(r.value) == Size(u) && r.value.lchild[pr] == u.lchild[ch]
  {
    var l := u.lchild[pr];
    if 0 <= l < Size(u) then
      Some(u.(fchild := u.fchild[l := u.fchild[ch]], lchild := u.lchild[pr := u.lchild[ch]]))
    else
      None
  }

  /** On a freshly constructed structure every `attach`, hence the one in the
      first `join` of two different elements, writes outside the array. */
  lemma FirstAttachFaults<T>(n: int, init: T, pr: int, ch: int)
    requires n > 0 && 0 <= pr < n && 0 <= ch < n
    ensures AttachAsWritten(InitAsWritten(n, init), pr, ch).None?
  {
  }

  /** Even with tail pointers initialised, `attach` as written lists the
      members of `pr` followed by those of `ch` minus `ch` itself: the
      absorbed root drops out of the list of its new class. */
  lemma AttachSkipsRoot<T>(u: UnionFind<T>, pr: int, ch: int)
    requires Valid(u) && 0 <= pr < Size(u) && 0 <= ch < Size(u) && pr != ch
    requires u.parent[pr] == pr && u.parent[ch] == ch
    ensures AttachAsWritten(u, pr, ch).Some?
    ensures WellShaped(AttachAsWritten(u, pr, ch).value)
    ensures Members(AttachAsWritten(u, pr, ch).value, pr) == Members(u, pr) + Members(u, ch)[1..]
    ensures ch !in Members(AttachAsWritten(u, pr, ch).value, pr)
  {
    RootLists(u, pr, ch);
    var s, t := Members(u, pr), Members(u, ch);
    SkipSplice(u, pr, ch);
    assert ch !in s by {
      assert ClassListed(u, pr);
      assert Rep(u, ch) == ch;
    }
    assert ch !in t[1..] by {
      forall k | 0 <= k < |t| - 1 ensures t[1..][k] != ch {
        assert t[1..][k] == t[k + 1] && t[0] == ch;
      }
    }
  }

  /** The list splice `attach` performs as written, on two disjoint complete
      lists. */
  lemma SkipSplice<T>(u: UnionFind<T>, pr: int, ch: int)
    requires WellShaped(u) && 0 <= pr < Size(u) && 0 <= ch < Size(u)
    requires IsChain(u.fchild, pr, Members(u, pr)) && u.lchild[pr] == Last(Members(u, pr))
    requires IsChain(u.fchild, ch, Members(u, ch))
    requires Disjoint(Members(u, pr), Members(u, ch))
    ensures AttachAsWritten(u, pr, ch).Some?
    ensures WellShaped(AttachAsWritten(u, pr, ch).value)
    ensures Members(AttachAsWritten(u, pr, ch).value, pr) == Members(u, pr) + Members(u, ch)[1..]
  {
    var s, t := Members(u, pr), Members(u, ch);
    var u' := AttachAsWritten(u, pr, ch).value;
    SpliceTail(u.fchild, pr, s, ch, t);
    DistinctLength(s + t[1..], Size(u));
    ChainOfIsChain(u'.fchild, pr, s + t[1..], Size(u));
  }

  /** The smallest instance: the first `join(0, 1)` on two elements of equal
      rank puts 0 under 1, attaches it and raises the rank of 1; as written,
      0 then belongs to the class of 1 but the list of 1 is `[1]`. */
  lemma JoinLosesMember(x: int)
    ensures var u := Init(2, x);
      var linked := u.(parent := u.parent[0 := 1], rk := u.rk[1 := 1]);
      && AttachAsWritten(linked, 1, 0).Some?
      && Rep(AttachAsWritten(linked, 1, 0).value, 0) == 1
      && Members(AttachAsWritten(linked, 1, 0).value, 1) == [1]
  {
    var u := Init(2, x);
    var linked := u.(parent := u.parent[0 := 1], rk := u.rk[1 := 1]);
    assert Forest(linked.parent, linked.rk);
    var u' := AttachAsWritten(linked, 1, 0).value;
    assert u'.fchild == [NIL, NIL];
    assert Chain(u'.fchild, NIL, 1) == [];
  }
}
