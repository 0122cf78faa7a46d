/** The longest match inside one node: the loop form and the table form of tree_function, and
    the bounded search of overlap detection (lib/mb_node.c). */
module NodeSearch {
  import opened Words
  import opened Addresses
  import opened Trees
  import opened LongestMatch

  /** The bitmap position of a length, or -1. */
  function PosOrNone(a: Bits, r: Option<nat>): int
    requires r.Some? ==> r.value <= |a|
  {
    if r.Some? then Pos(a[..r.value]) else -1
  }

  lemma {:induction false} ShrOne(s: Bits)
    requires s != []
    ensures Shr(Val(s), 1) == Val(s[..|s| - 1])
  {
    assert Shr(Val(s), 1) == Shr(Val(s) / 2, 0);
  }

  lemma {:induction false} ZeroInNode(a: Bits, n: nat)
    requires n <= |a| + 1
    ensures InNode(0, a, n) == None
  {
    if InNode(0, a, n).Some? { ZeroBit(Pos(a[..InNode(0, a, n).value])); }
  }

  /** The loop form. */
  method TreeFunctionLoop(bitmap: Word, stride0: nat, ghost a: Bits) returns (pos: int)
    requires STRIDE <= |a| && stride0 == Val(a[..STRIDE])
    ensures pos == PosOrNone(a, InNode(bitmap, a, STRIDE))
  {
    var stride := stride0;
    if bitmap == 0 {
      ZeroInNode(a, STRIDE);
      return -1;
    }
    var i: int := STRIDE - 1;
    while i >= 0
      invariant -1 <= i < STRIDE
      invariant stride == Val(a[..i + 1])
      invariant InNode(bitmap, a, STRIDE) == InNode(bitmap, a, i + 1)
    {
      ShrOne(a[..i + 1]);
      assert a[..i + 1][..i] == a[..i];
      PosSmall(a[..i]);
      stride := Shr(stride, 1);
      pos := CountInlBitmap(stride, i);
      if TestBit(bitmap, pos) {
        return pos;
      }
      i := i - 1;
    }
    return -1;
  }

  /** Entry i of the table marks the positions of all prefixes of the five bits of i. */
  ghost predicate Ready(fct: seq<Word>) {
    |fct| == 32 && forall i | 0 <= i < 32 :: Row(fct[i], ToBits(i, 5), -1)
  }

  /** w marks exactly the positions of the prefixes of s longer than n. */
  ghost predicate Row(w: Word, s: Bits, n: int) {
    forall q: nat :: Bit(w, q) <==> Marked(s, n, q)
  }

  /** q is the position of a prefix of s longer than n. */
  ghost predicate Marked(s: Bits, n: int, q: nat) {
    exists j: nat :: n < j <= |s| && q == Pos(s[..j])
  }

  lemma {:induction false} RowStart(s: Bits)
    ensures Row(0, s, |s|)
  {
    forall q: nat ensures !Bit(0, q) { ZeroBit(q); }
  }

  lemma {:induction false} RowStep(w: Word, s: Bits, j: nat)
    requires j <= |s| < STRIDE && Row(w, s, j) && Pos(s[..j]) < 64
    ensures Row(SetBit(w, Pos(s[..j])), s, j - 1)
  {
    forall q: nat ensures Bit(SetBit(w, Pos(s[..j])), q) <==> Marked(s, j - 1, q) {
      assert Marked(s, j - 1, q) <==> q == Pos(s[..j]) || Marked(s, j, q);
    }
  }

  method FastLookupInit() returns (fct: array<Word>)
    ensures Ready(fct[..])
  {
    fct := new Word[32](_ => 0);
    var i := 0;
    while i < 32
      invariant 0 <= i <= 32
      invariant forall k | 0 <= k < i :: Row(fct[k], ToBits(k, 5), -1)
      invariant forall k | i <= k < 32 :: fct[k] == 0
    {
      var stride := i;
      ghost var s := ToBits(i, 5);
      ghost var done := fct[..i];
      assert Pow2(5) == 32 by { Pow2Thirty2(); }
      ValToBits(i, 5);
      RowStart(s);
      assert s[..5] == s;
      var j: int := STRIDE - 1;
      while j >= 0
        invariant -1 <= j <= 5
        invariant j >= 0 ==> stride == Val(s[..j])
        invariant Row(fct[i], s, j)
        invariant fct[..i] == done
        invariant forall k | i < k < 32 :: fct[k] == 0
      {
        PosSmall(s[..j]);
        var pos := CountInlBitmap(stride, j);
        RowStep(fct[i], s, j);
        fct[i] := SetBit(fct[i], pos);
        if j > 0 {
          ShrOne(s[..j]);
          assert s[..j][..j - 1] == s[..j - 1];
        }
        stride := Shr(stride, 1);
        j := j - 1;
      }
      assert forall k | 0 <= k < i :: fct[k] == done[k];
      i := i + 1;
    }
  }

  /** The table form: mask, then highest set bit. */
  function TreeFunction(fct: seq<Word>, bitmap: Word, stride: nat): (pos: int)
    requires |fct| == 32 && stride < 64
  {
    ShrSix(stride);
    var ret := MaskWord(fct[Shr(stride, 1)], bitmap);
    if ret != 0 then BITMAP_BITS - 1 - Clz(ret) else -1
  }

  lemma {:induction false} ShrSix(stride: nat)
    requires stride < 64
    ensures Shr(stride, 1) < 32
  {
    assert Shr(stride, 1) == Shr(stride / 2, 0);
  }

  /** It finds the longest prefix of the address in the bitmap. */
  lemma {:induction false} TreeFunctionFinds(fct: seq<Word>, bitmap: Word, stride: nat, a: Bits)
    requires Ready(fct) && STRIDE <= |a| && stride == Val(a[..STRIDE]) < 64
    ensures TreeFunction(fct, bitmap, stride) == PosOrNone(a, InNode(bitmap, a, STRIDE))
  {
    StrideHalf(a);
    var ret: Word := MaskWord(fct[Shr(stride, 1)], bitmap);
    MaskBits(fct, bitmap, a);
    if ret != 0 {
      MaskTop(bitmap, a, 63 - Clz(ret));
    } else if InNode(bitmap, a, STRIDE).Some? {
      var q := Pos(a[..InNode(bitmap, a, STRIDE).value]);
      assert Bit(ret, q);
      ZeroBit(q);
    }
  }

  function MaskWord(a: Word, b: Word): (r: Word)
    ensures forall q: nat :: Bit(r, q) == (Bit(a, q) && Bit(b, q))
  {
    Pow2Sixty4();
    forall q: nat ensures Bit(And(a, b), q) == (Bit(a, q) && Bit(b, q)) { AndBit(a, b, q); }
    forall q: nat | Bit(And(a, b), q) ensures q < 64 { WordBit(a, q); }
    BitsBelow(And(a, b), 64);
    And(a, b)
  }

  lemma {:induction false} StrideHalf(a: Bits)
    requires STRIDE <= |a|
    ensures Shr(Val(a[..STRIDE]), 1) == Val(a[..5]) < 32
    ensures ToBits(Val(a[..5]), 5) == a[..5]
  {
    ShrOne(a[..STRIDE]);
    assert a[..STRIDE][..5] == a[..5];
    ValBound(a[..5]);
    assert Pow2(5) == 32 by { Pow2Thirty2(); }
    ToBitsVal(a[..5]);
  }

  /** The masked word holds exactly the stored prefixes of the address. */
  lemma {:induction false} MaskBits(fct: seq<Word>, bitmap: Word, a: Bits)
    requires Ready(fct) && STRIDE <= |a| && Val(a[..5]) < 32
    ensures forall j: nat | j <= 5 ::
              Bit(MaskWord(fct[Val(a[..5])], bitmap), Pos(a[..j])) <==> Bit(bitmap, Pos(a[..j]))
    ensures forall q: nat :: Bit(MaskWord(fct[Val(a[..5])], bitmap), q) ==>
              Bit(bitmap, q) && Marked(a[..5], -1, q)
  {
    StrideHalf(a);
    forall j: nat | j <= 5 ensures Marked(a[..5], -1, Pos(a[..j])) {
      assert a[..5][..j] == a[..j];
    }
  }

  lemma {:induction false} MaskTop(bitmap: Word, a: Bits, q: nat)
    requires STRIDE <= |a|
    requires Bit(bitmap, q) && Marked(a[..5], -1, q)
    requires forall j: nat | j <= 5 && Bit(bitmap, Pos(a[..j])) :: Pos(a[..j]) <= q
    ensures q == PosOrNone(a, InNode(bitmap, a, STRIDE))
  {
    var j: nat :| j <= 5 && q == Pos(a[..5][..j]);
    assert a[..5][..j] == a[..j];
    InNodeMax(bitmap, a, STRIDE, j);
    var L := InNode(bitmap, a, STRIDE).value;
    if j < L { PosMono(a[..j], a[..L]); }
  }

  /** Both forms compute the same function. */
  method TreeFunctionsAgree(fct: seq<Word>, bitmap: Word, stride: nat) returns (loop: int)
    requires Ready(fct) && stride < 64
    ensures loop == TreeFunction(fct, bitmap, stride)
  {
    ghost var a := ToBits(stride, STRIDE);
    Pow2Thirty2();
    ValToBits(stride, STRIDE);
    assert a[..STRIDE] == a;
    TreeFunctionFinds(fct, bitmap, stride, a);
    loop := TreeFunctionLoop(bitmap, stride, a);
  }

  /** The longest stored prefix strictly shorter than limitInside; `mask` becomes its length. */
  method FindOverlapInNode(bitmap: Word, stride0: nat, mask0: nat, limitInside: nat, ghost a: Bits)
    returns (pos: int, mask: nat)
    requires STRIDE <= |a| && stride0 == Val(a[..STRIDE])
    requires limitInside <= STRIDE
    ensures pos == PosOrNone(a, InNode(bitmap, a, limitInside))
    ensures InNode(bitmap, a, limitInside).Some? ==> mask == InNode(bitmap, a, limitInside).value
  {
    mask := mask0;
    if bitmap == 0 {
      ZeroInNode(a, limitInside);
      return -1, mask;
    }
    ShrMany(a[..STRIDE], STRIDE - limitInside);
    assert a[..STRIDE][..limitInside] == a[..limitInside];
    var stride := Shr(stride0, STRIDE - limitInside);
    var i: int := limitInside - 1;
    while i >= 0
      invariant -1 <= i < STRIDE
      invariant stride == Val(a[..i + 1])
      invariant InNode(bitmap, a, limitInside) == InNode(bitmap, a, i + 1)
    {
      ShrOne(a[..i + 1]);
      assert a[..i + 1][..i] == a[..i];
      PosSmall(a[..i]);
      stride := Shr(stride, 1);
      mask := i;
      pos := CountInlBitmap(stride, i);
      if TestBit(bitmap, pos) {
        return pos, mask;
      }
      i := i - 1;
    }
    return -1, mask;
  }

  lemma {:induction false} ShrMany(s: Bits, k: nat)
    requires k <= |s|
    ensures Shr(Val(s), k) == Val(s[..|s| - k])
    decreases k
  {
    if k == 0 {
      assert s[..|s|] == s;
    } else {
      ShrMany(s, k - 1);
      ShrStep(Val(s), k - 1);
      var t := s[..|s| - (k - 1)];
      assert t[..|t| - 1] == s[..|s| - k];
    }
  }
}
