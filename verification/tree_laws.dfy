/** Insert and delete are update and removal on the abstract map; the tree is determined by
    the map alone. */
module TreeLaws {
  import opened Words
  import opened Addresses
  import opened Trees

  // ----- insert is map update ---------------------------------------------------------

  lemma {:induction false} InsertGet(t: Tree, k: Bits, v: Nhi, j: Bits)
    requires Packed(t)
    ensures Get(InsertT(t, k, v), j) == if j == k then Some(v) else Get(t, j)
    decreases |k|
  {
    if |k| < STRIDE {
      PosSmall(k);
      var p := Pos(k);
      if |j| < STRIDE {
        var q := Pos(j);
        if q == p { PosInjective(j, k); }
        if Bit(t.inl, p) { PutRuleKeeps(t, p, v, q); } else { AddRuleKeeps(t, p, v, q); }
      }
    } else {
      StrideBound(k);
      var p := Val(k[..STRIDE]);
      var u := WithChild(t, p);
      var c := InsertT(ChildAt(u, p), k[STRIDE..], v);
      if |j| >= STRIDE {
        var q := Val(j[..STRIDE]);
        PutChildKeeps(u, p, c, q);
        if q == p {
          ValInjective(j[..STRIDE], k[..STRIDE]);
          InsertGet(ChildAt(u, p), k[STRIDE..], v, j[STRIDE..]);
          assert j == j[..STRIDE] + j[STRIDE..] && k == k[..STRIDE] + k[STRIDE..];
        }
        WithChildGet(t, p, j);
      }
    }
  }

  lemma {:induction false} WithChildGet(t: Tree, p: nat, j: Bits)
    requires Packed(t) && p < 64
    ensures Get(WithChild(t, p), j) == Get(t, j)
  {
    EmptyTree();
    if !Bit(t.ext, p) && |j| >= STRIDE {
      AddChildKeeps(t, p, EMPTY, Val(j[..STRIDE]));
    }
  }

  lemma {:induction false} InsertIsUpdate(t: Tree, k: Bits, v: Nhi)
    requires Packed(t)
    ensures Map(InsertT(t, k, v)) == Map(t)[k := v]
  {
    forall j: Bits ensures Get(InsertT(t, k, v), j) == if j == k then Some(v) else Get(t, j) {
      InsertGet(t, k, v, j);
    }
  }

  // ----- delete is map removal --------------------------------------------------------

  lemma {:induction false} DeleteGet(t: Tree, k: Bits, j: Bits)
    requires Packed(t) && Get(t, k).Some?
    ensures Get(DeleteT(t, k), j) == if j == k then None else Get(t, j)
    decreases |k|
  {
    if |k| < STRIDE {
      var p := Pos(k);
      if |j| < STRIDE {
        if Pos(j) == p { PosInjective(j, k); }
        DropRuleKeeps(t, p, Pos(j));
      }
    } else {
      var p := Val(k[..STRIDE]);
      WordBit(t.ext, p);
      var c := DeleteT(ChildAt(t, p), k[STRIDE..]);
      if |j| >= STRIDE {
        var q := Val(j[..STRIDE]);
        if Empty(c) { DropChildKeeps(t, p, q); } else { PutChildKeeps(t, p, c, q); }
        if q == p {
          ValInjective(j[..STRIDE], k[..STRIDE]);
          DeleteGet(ChildAt(t, p), k[STRIDE..], j[STRIDE..]);
          assert j == j[..STRIDE] + j[STRIDE..] && k == k[..STRIDE] + k[STRIDE..];
          if Empty(c) { EmptyGet(c, j[STRIDE..]); }
        }
      }
    }
  }

  lemma {:induction false} EmptyGet(t: Tree, k: Bits)
    requires Packed(t) && Empty(t)
    ensures Get(t, k) == None
  {
    ZeroBit(Pos(k));
    if |k| >= STRIDE { ZeroBit(Val(k[..STRIDE])); }
  }

  lemma {:induction false} DeleteIsRemoval(t: Tree, k: Bits)
    requires Packed(t) && Get(t, k).Some?
    ensures Map(DeleteT(t, k)) == Map(t) - {k}
  {
    hide Get, Packs, DeleteT;
    forall j: Bits ensures Get(DeleteT(t, k), j) == if j == k then None else Get(t, j) {
      DeleteGet(t, k, j);
    }
  }

  // ----- depth ------------------------------------------------------------------------

  lemma {:induction false} WithChildFits(t: Tree, p: nat, w: nat)
    requires Packed(t) && Fits(t, w) && p < 64 && w >= STRIDE
    ensures Fits(WithChild(t, p), w)
  {
    EmptyTree();
    if !Bit(t.ext, p) {
      RankSet(t.ext, p, p);
      RankBounds(t.ext, p);
    }
  }

  lemma {:induction false} PutChildFits(t: Tree, p: nat, c: Tree, w: nat)
    requires Packed(t) && Fits(t, w) && Bit(t.ext, p) && w >= STRIDE && Fits(c, w - STRIDE)
    ensures Fits(PutChild(t, p, c), w)
  {
    RankBounds(t.ext, p);
  }

  lemma {:induction false} InsertFits(t: Tree, k: Bits, v: Nhi, w: nat)
    requires Packed(t) && Fits(t, w) && |k| <= w
    ensures Fits(InsertT(t, k, v), w)
    decreases |k|
  {
    if |k| < STRIDE {
      PosSmall(k);
      PosBound(k, Min(w, 5));
    } else {
      hide Fits, Packs, WithChild, PutChild;
      StrideBound(k);
      var p := Val(k[..STRIDE]);
      var u := WithChild(t, p);
      WithChildFits(t, p, w);
      ChildFits(u, w, p);
      InsertFits(ChildAt(u, p), k[STRIDE..], v, w - STRIDE);
      PutChildFits(u, p, InsertT(ChildAt(u, p), k[STRIDE..], v), w);
    }
  }

  lemma {:induction false} DeleteFits(t: Tree, k: Bits, w: nat)
    requires Packed(t) && Fits(t, w) && Get(t, k).Some?
    ensures Fits(DeleteT(t, k), w)
    decreases |k|
  {
    if |k| >= STRIDE {
      var p := Val(k[..STRIDE]);
      RankBounds(t.ext, p);
      ZeroBit(p);
      DeleteFits(ChildAt(t, p), k[STRIDE..], w - STRIDE);
    }
  }

  lemma {:induction false} ChildFits(t: Tree, w: nat, p: nat)
    requires Packed(t) && Fits(t, w) && Bit(t.ext, p)
    ensures w >= STRIDE && Fits(ChildAt(t, p), w - STRIDE)
  {
    RankBounds(t.ext, p);
  }

  /** Nothing longer than the width is stored. */
  lemma {:induction false} FitsGet(t: Tree, w: nat, k: Bits)
    requires Packed(t) && Fits(t, w) && Get(t, k).Some?
    ensures |k| <= w
    decreases |k|
  {
    if |k| < STRIDE {
      PosBound(k, Min(w, 5));
    } else {
      var p := Val(k[..STRIDE]);
      RankBounds(t.ext, p);
      FitsGet(ChildAt(t, p), w - STRIDE, k[STRIDE..]);
    }
  }

  // ----- canonical shape --------------------------------------------------------------

  lemma {:induction false} InsertNonEmpty(t: Tree, k: Bits, v: Nhi)
    requires Packed(t)
    ensures !Empty(InsertT(t, k, v))
  {
    InsertGet(t, k, v, k);
    if Empty(InsertT(t, k, v)) { EmptyGet(InsertT(t, k, v), k); }
  }

  lemma {:induction false} InsertCanonical(t: Tree, k: Bits, v: Nhi)
    requires Packed(t) && Canonical(t)
    ensures Canonical(InsertT(t, k, v))
    decreases |k|
  {
    if |k| >= STRIDE {
      StrideBound(k);
      var p := Val(k[..STRIDE]);
      var u := WithChild(t, p);
      RankBounds(u.ext, p);
      if !Bit(t.ext, p) {
        RankSet(t.ext, p, p);
        RankBounds(t.ext, p);
      }
      InsertCanonical(ChildAt(u, p), k[STRIDE..], v);
      InsertNonEmpty(ChildAt(u, p), k[STRIDE..], v);
    }
  }

  lemma {:induction false} DeleteCanonical(t: Tree, k: Bits)
    requires Packed(t) && Canonical(t) && Get(t, k).Some?
    ensures Canonical(DeleteT(t, k))
    decreases |k|
  {
    if |k| >= STRIDE {
      var p := Val(k[..STRIDE]);
      RankBounds(t.ext, p);
      DeleteCanonical(ChildAt(t, p), k[STRIDE..]);
    }
  }

  /** A non-empty canonical tree stores something. */
  lemma {:induction false} HasKey(t: Tree) returns (k: Bits)
    requires Packed(t) && Canonical(t) && !Empty(t)
    ensures Get(t, k).Some?
  {
    if t.inl != 0 {
      TopBitSpec(t.inl);
      k := PosSurjective(TopBit(t.inl));
      PosBound(k, 5);
      Pow2Thirty2();
    } else {
      TopBitSpec(t.ext);
      var p := TopBit(t.ext);
      RankBounds(t.ext, p);
      var j := HasKey(ChildAt(t, p));
      k := StrideKey(t.ext, p) + j;
      assert k[..STRIDE] == StrideKey(t.ext, p) && k[STRIDE..] == j;
    }
  }

  /** The six bits that select the external position p. */
  function StrideKey(w: Word, p: nat): (s: Bits)
    requires Bit(w, p)
    ensures |s| == STRIDE && Val(s) == p
  {
    WordBit(w, p);
    Pow2Thirty2();
    ValToBits(p, STRIDE);
    ToBits(p, STRIDE)
  }

  lemma {:induction false} SameExt(t: Tree, u: Tree, p: nat)
    requires Packed(t) && Canonical(t) && Packed(u)
    requires forall k: Bits :: Get(t, k) == Get(u, k)
    requires Bit(t.ext, p)
    ensures Bit(u.ext, p)
  {
    RankBounds(t.ext, p);
    var s := StrideKey(t.ext, p);
    var k := HasKey(ChildAt(t, p));
    assert (s + k)[..STRIDE] == s && (s + k)[STRIDE..] == k;
    assert Get(t, s + k) == Get(u, s + k);
  }

  lemma {:induction false} SameInl(t: Tree, u: Tree, p: nat)
    requires Packed(t) && Packed(u)
    requires forall k: Bits :: Get(t, k) == Get(u, k)
    requires Bit(t.inl, p)
    ensures Bit(u.inl, p) && RuleAt(u, p) == RuleAt(t, p)
  {
    var k := PosSurjective(p);
    PosBound(k, 5);
    Pow2Thirty2();
    assert Get(t, k) == Get(u, k);
  }

  lemma {:induction false} SameChild(t: Tree, u: Tree, p: nat, k: Bits)
    requires Packed(t) && Packed(u)
    requires forall k: Bits :: Get(t, k) == Get(u, k)
    requires Bit(t.ext, p) && Bit(u.ext, p)
    ensures Get(ChildAt(t, p), k) == Get(ChildAt(u, p), k)
  {
    var s := StrideKey(t.ext, p);
    assert (s + k)[..STRIDE] == s && (s + k)[STRIDE..] == k;
    assert Get(t, s + k) == Get(u, s + k);
  }

  /** Canonical trees with the same map are the same tree: bitmaps, packed rules and packed
      children do not depend on the order of the operations that built them. */
  lemma {:induction false} CanonicalUnique(t: Tree, u: Tree)
    requires Packed(t) && Canonical(t) && Packed(u) && Canonical(u)
    requires forall k: Bits :: Get(t, k) == Get(u, k)
    ensures t == u
  {
    forall p: nat ensures Bit(t.inl, p) == Bit(u.inl, p) && Bit(t.ext, p) == Bit(u.ext, p) {
      if Bit(t.inl, p) { SameInl(t, u, p); }
      if Bit(u.inl, p) { SameInl(u, t, p); }
      if Bit(t.ext, p) { SameExt(t, u, p); }
      if Bit(u.ext, p) { SameExt(u, t, p); }
    }
    SameBits(t.inl, u.inl);
    SameBits(t.ext, u.ext);
    forall i | 0 <= i < |t.rules| ensures t.rules[i] == u.rules[i] {
      var p := RankSurjective(t.inl, i);
      SameInl(t, u, p);
    }
    forall i | 0 <= i < |t.kids| ensures t.kids[i] == u.kids[i] {
      var p := RankSurjective(t.ext, i);
      forall k: Bits ensures Get(t.kids[i], k) == Get(u.kids[i], k) {
        SameChild(t, u, p, k);
      }
      CanonicalUnique(t.kids[i], u.kids[i]);
    }
    assert t.rules == u.rules && t.kids == u.kids;
  }

  /** Inserting a new prefix and deleting it again restores the very same tree. */
  lemma {:induction false} InsertDelete(t: Tree, k: Bits, v: Nhi)
    requires Packed(t) && Canonical(t) && Get(t, k) == None
    ensures Get(InsertT(t, k, v), k).Some?
    ensures DeleteT(InsertT(t, k, v), k) == t
  {
    InsertGet(t, k, v, k);
    var u := InsertT(t, k, v);
    InsertCanonical(t, k, v);
    DeleteCanonical(u, k);
    forall j: Bits ensures Get(DeleteT(u, k), j) == Get(t, j) {
      DeleteGet(u, k, j);
      InsertGet(t, k, v, j);
    }
    CanonicalUnique(DeleteT(u, k), t);
  }

  /** Operations on different prefixes commute, down to the packed layout. */
  lemma {:induction false} InsertCommutes(t: Tree, j: Bits, v: Nhi, k: Bits, w: Nhi)
    requires Packed(t) && Canonical(t) && j != k
    ensures InsertT(InsertT(t, j, v), k, w) == InsertT(InsertT(t, k, w), j, v)
  {
    InsertCanonical(t, j, v);
    InsertCanonical(InsertT(t, j, v), k, w);
    InsertCanonical(t, k, w);
    InsertCanonical(InsertT(t, k, w), j, v);
    forall i: Bits
      ensures Get(InsertT(InsertT(t, j, v), k, w), i) == Get(InsertT(InsertT(t, k, w), j, v), i)
    {
      InsertGet(t, j, v, i);
      InsertGet(InsertT(t, j, v), k, w, i);
      InsertGet(t, k, w, i);
      InsertGet(InsertT(t, k, w), j, v, i);
    }
    CanonicalUnique(InsertT(InsertT(t, j, v), k, w), InsertT(InsertT(t, k, w), j, v));
  }
}
