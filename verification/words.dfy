/** 64-bit words as naturals with their bitwise operations, and the rank (population count
    of the bits at or above a position) that indexes a packed node. */
module Words {

  const WORD_LIMIT: nat := 0x1_0000_0000_0000_0000

  type Word = w: nat | w < WORD_LIMIT

  function Pow2(n: nat): (r: nat)
    ensures r >= 1
  {
    if n == 0 then 1 else 2 * Pow2(n - 1)
  }

  /** Bit p of w, bit 0 being the least significant. */
  function Bit(w: nat, p: nat): bool
    decreases p
  {
    if p == 0 then w % 2 == 1 else Bit(w / 2, p - 1)
  }

  function Or(a: nat, b: nat): nat
    decreases a + b
  {
    if a == 0 && b == 0 then 0
    else 2 * Or(a / 2, b / 2) + (if a % 2 == 1 || b % 2 == 1 then 1 else 0)
  }

  function And(a: nat, b: nat): nat
  {
    if a == 0 || b == 0 then 0
    else 2 * And(a / 2, b / 2) + (if a % 2 == 1 && b % 2 == 1 then 1 else 0)
  }

  /** The 64-bit complement. */
  function Not(w: Word): Word {
    WORD_LIMIT - 1 - w
  }

  function Shr(w: nat, n: nat): nat
    decreases n
  {
    if n == 0 then w else Shr(w / 2, n - 1)
  }

  function Shl(w: nat, n: nat): nat {
    if n == 0 then w else 2 * Shl(w, n - 1)
  }

  function PopCount(w: nat): nat {
    if w == 0 then 0 else w % 2 + PopCount(w / 2)
  }

  /** Number of set bits of w at or above position p. */
  function Rank(w: nat, p: nat): nat {
    PopCount(Shr(w, p))
  }

  function TopBit(w: nat): nat
    requires w != 0
  {
    if w == 1 then 0 else 1 + TopBit(w / 2)
  }

  /** Number of leading zeros of a non-zero 64-bit word. */
  function Clz(w: Word): (r: nat)
    requires w != 0
    ensures r < 64 && Bit(w, 63 - r)
    ensures forall q: nat :: Bit(w, q) ==> q <= 63 - r
  {
    TopBitSpec(w);
    WordBit(w, TopBit(w));
    63 - TopBit(w)
  }

  // ----- powers of two ----------------------------------------------------------------

  lemma {:induction false} Pow2Add(a: nat, b: nat)
    ensures Pow2(a + b) == Pow2(a) * Pow2(b)
  {
    if a > 0 {
      Pow2Add(a - 1, b);
      assert 2 * (Pow2(a - 1) * Pow2(b)) == (2 * Pow2(a - 1)) * Pow2(b);
    }
  }

  lemma {:induction false} Pow2Mono(a: nat, b: nat)
    requires a <= b
    ensures Pow2(a) <= Pow2(b)
  {
    if a < b { Pow2Mono(a, b - 1); }
  }

  lemma {:induction false} Pow2Thirty2()
    ensures Pow2(6) == 64 && Pow2(13) == 8192 && Pow2(16) == 0x1_0000
    ensures Pow2(19) == 0x8_0000 && Pow2(26) == 0x400_0000 && Pow2(32) == 0x1_0000_0000
  {
    assert Pow2(3) == 8;
    Pow2Add(3, 3);
    Pow2Add(6, 6);
    Pow2Add(1, 12);
    Pow2Add(3, 13);
    Pow2Add(3, 16);
    Pow2Add(13, 13);
    Pow2Add(6, 26);
  }

  lemma {:induction false} Pow2Sixty4()
    ensures Pow2(64) == WORD_LIMIT
  {
    Pow2Thirty2();
    Pow2Add(32, 32);
  }

  // ----- single bits ------------------------------------------------------------------

  lemma {:induction false} ZeroBit(p: nat)
    ensures !Bit(0, p)
  {
    if p > 0 { ZeroBit(p - 1); }
  }

  lemma {:induction false} TopBitSpec(w: nat)
    requires w != 0
    ensures Bit(w, TopBit(w))
    ensures forall q: nat :: Bit(w, q) ==> q <= TopBit(w)
  {
    if w == 1 {
      forall q: nat | Bit(w, q) ensures q <= 0 {
        if q > 0 { ZeroBit(q - 1); }
      }
    } else {
      TopBitSpec(w / 2);
      forall q: nat | Bit(w, q) ensures q <= TopBit(w) {
        if q > 0 { assert Bit(w / 2, q - 1); }
      }
    }
  }

  lemma {:induction false} OrBit(a: nat, b: nat, p: nat)
    ensures Bit(Or(a, b), p) == (Bit(a, p) || Bit(b, p))
    decreases p
  {
    if a == 0 && b == 0 {
      ZeroBit(p);
    } else {
      assert Or(a, b) / 2 == Or(a / 2, b / 2);
      if p > 0 { OrBit(a / 2, b / 2, p - 1); }
    }
  }

  lemma {:induction false} AndBit(a: nat, b: nat, p: nat)
    ensures Bit(And(a, b), p) == (Bit(a, p) && Bit(b, p))
    decreases p
  {
    if a == 0 || b == 0 {
      ZeroBit(p);
    } else {
      assert And(a, b) / 2 == And(a / 2, b / 2);
      if p > 0 { AndBit(a / 2, b / 2, p - 1); }
    }
  }

  lemma {:induction false} Pow2Bit(p: nat, q: nat)
    ensures Bit(Pow2(p), q) == (p == q)
    decreases q
  {
    if p == 0 {
      if q > 0 { ZeroBit(q - 1); }
    } else {
      assert Pow2(p) / 2 == Pow2(p - 1);
      if q > 0 { Pow2Bit(p - 1, q - 1); }
    }
  }

  lemma {:induction false} NotBit(n: nat, w: nat, p: nat)
    requires w < Pow2(n) && p < n
    ensures Bit(Pow2(n) - 1 - w, p) == !Bit(w, p)
    decreases p
  {
    var x, h, r := Pow2(n - 1), w / 2, w % 2;
    assert Pow2(n) - 1 - w == 2 * (x - 1 - h) + (1 - r);
    if p > 0 {
      NotBit(n - 1, h, p - 1);
    }
  }

  /** Numbers with the same bits are equal. */
  lemma {:induction false} SameBits(a: nat, b: nat)
    requires forall p: nat :: Bit(a, p) == Bit(b, p)
    ensures a == b
    decreases a + b
  {
    assert Bit(a, 0) == Bit(b, 0);
    if a != 0 || b != 0 {
      forall p: nat ensures Bit(a / 2, p) == Bit(b / 2, p) {
        assert Bit(a, p + 1) == Bit(b, p + 1);
      }
      SameBits(a / 2, b / 2);
    }
  }

  lemma {:induction false} BitBelow(w: nat, n: nat, p: nat)
    requires w < Pow2(n) && Bit(w, p)
    ensures p < n
    decreases n
  {
    if n == 0 {
      ZeroBit(p);
    } else if p > 0 {
      BitBelow(w / 2, n - 1, p - 1);
    }
  }

  lemma {:induction false} TopBitBound(w: nat)
    requires w != 0
    ensures w < Pow2(TopBit(w) + 1)
  {
    if w != 1 { TopBitBound(w / 2); }
  }

  /** A number whose bits are all below n is below 2^n. */
  lemma {:induction false} BitsBelow(w: nat, n: nat)
    requires forall p: nat :: Bit(w, p) ==> p < n
    ensures w < Pow2(n)
  {
    if w != 0 {
      TopBitSpec(w);
      TopBitBound(w);
      Pow2Mono(TopBit(w) + 1, n);
    }
  }

  lemma {:induction false} WordBit(w: Word, p: nat)
    requires Bit(w, p)
    ensures p < 64
  {
    Pow2Sixty4();
    BitBelow(w, 64, p);
  }

  // ----- rank -------------------------------------------------------------------------

  lemma {:induction false} ShrBit(w: nat, n: nat, p: nat)
    ensures Bit(Shr(w, n), p) == Bit(w, n + p)
    decreases n
  {
    if n > 0 { ShrBit(w / 2, n - 1, p); }
  }

  lemma {:induction false} ShrStep(w: nat, n: nat)
    ensures Shr(w, n + 1) == Shr(w, n) / 2
    decreases n
  {
    if n > 0 { ShrStep(w / 2, n - 1); }
  }

  lemma {:induction false} RankStep(w: nat, p: nat)
    ensures Rank(w, p) == Rank(w, p + 1) + (if Bit(w, p) then 1 else 0)
  {
    ShrStep(w, p);
    ShrBit(w, p, 0);
  }

  lemma {:induction false} RankMono(w: nat, p: nat, q: nat)
    requires p <= q
    ensures Rank(w, q) <= Rank(w, p)
    ensures p < q && Bit(w, p) ==> Rank(w, q) < Rank(w, p)
    decreases q - p
  {
    if p < q {
      RankStep(w, p);
      RankMono(w, p + 1, q);
    }
  }

  lemma {:induction false} RankBounds(w: nat, p: nat)
    ensures Rank(w, p) <= PopCount(w)
    ensures Bit(w, p) ==> Rank(w, p) >= 1
  {
    RankMono(w, 0, p);
    RankStep(w, p);
  }

  /** The rank of a set bit identifies it. */
  lemma {:induction false} RankInjective(w: nat, p: nat, q: nat)
    requires Bit(w, p) && Bit(w, q) && Rank(w, p) == Rank(w, q)
    ensures p == q
  {
    if p < q { RankMono(w, p, q); }
    if q < p { RankMono(w, q, p); }
  }

  /** Every index of a packed array belongs to exactly one set bit. */
  lemma {:induction false} RankSurjective(w: nat, k: nat) returns (p: nat)
    requires k < PopCount(w)
    ensures Bit(w, p) && Rank(w, p) == k + 1
  {
    if k + 1 == PopCount(w) && w % 2 == 1 {
      p := 0;
    } else {
      var q := RankSurjective(w / 2, k);
      p := q + 1;
    }
  }

  lemma {:induction false} PopCountBelow(w: nat, n: nat)
    requires w < Pow2(n)
    ensures PopCount(w) <= n
    decreases n
  {
    if w != 0 { PopCountBelow(w / 2, n - 1); }
  }

  // ----- setting and clearing one bit -------------------------------------------------

  function SetBit(w: Word, p: nat): (r: Word)
    requires p < 64
    ensures forall q: nat :: Bit(r, q) == (q == p || Bit(w, q))
  {
    Pow2Sixty4();
    forall q: nat ensures Bit(Or(w, Pow2(p)), q) == (q == p || Bit(w, q)) {
      OrBit(w, Pow2(p), q);
      Pow2Bit(p, q);
    }
    forall q: nat | Bit(Or(w, Pow2(p)), q) ensures q < 64 {
      if q != p { WordBit(w, q); }
    }
    BitsBelow(Or(w, Pow2(p)), 64);
    Or(w, Pow2(p))
  }

  function ClearBit(w: Word, p: nat): (r: Word)
    requires p < 64
    ensures forall q: nat :: Bit(r, q) == (q != p && Bit(w, q))
  {
    Pow2Sixty4();
    Pow2Mono(p + 1, 64);
    forall q: nat ensures Bit(And(w, Not(Pow2(p))), q) == (q != p && Bit(w, q)) {
      AndBit(w, Not(Pow2(p)), q);
      Pow2Bit(p, q);
      if Bit(w, q) {
        WordBit(w, q);
        NotBit(64, Pow2(p), q);
      }
    }
    forall q: nat | Bit(And(w, Not(Pow2(p))), q) ensures q < 64 { WordBit(w, q); }
    BitsBelow(And(w, Not(Pow2(p))), 64);
    And(w, Not(Pow2(p)))
  }

  /** The C test `bitmap & (1 << pos)`. */
  function TestBit(w: Word, p: nat): (r: bool)
    requires p < 64
    ensures r == Bit(w, p)
  {
    AndPow2(w, p);
    And(w, Pow2(p)) != 0
  }

  lemma {:induction false} AndPow2(w: nat, p: nat)
    ensures And(w, Pow2(p)) != 0 <==> Bit(w, p)
  {
    AndBit(w, Pow2(p), p);
    Pow2Bit(p, p);
    if And(w, Pow2(p)) == 0 {
      ZeroBit(p);
    } else {
      var q := TopBit(And(w, Pow2(p)));
      TopBitSpec(And(w, Pow2(p)));
      AndBit(w, Pow2(p), q);
      Pow2Bit(p, q);
    }
  }

  /** Two words that differ only by bit p, set in v: ranks at or below p differ by one. */
  lemma {:induction false} RankInsert(w: nat, v: nat, p: nat, q: nat)
    requires !Bit(w, p) && Bit(v, p)
    requires forall j: nat | j != p :: Bit(w, j) == Bit(v, j)
    ensures Rank(v, q) == Rank(w, q) + (if q <= p then 1 else 0)
    decreases if q <= p then p - q + 1 else 0
  {
    RankStep(w, q);
    RankStep(v, q);
    if q <= p {
      RankInsert(w, v, p, q + 1);
    } else {
      forall j: nat ensures Bit(Shr(w, q), j) == Bit(Shr(v, q), j) {
        ShrBit(w, q, j);
        ShrBit(v, q, j);
      }
      SameBits(Shr(w, q), Shr(v, q));
    }
  }

  lemma {:induction false} RankSet(w: Word, p: nat, q: nat)
    requires p < 64 && !Bit(w, p)
    ensures Rank(SetBit(w, p), q) == Rank(w, q) + (if q <= p then 1 else 0)
    ensures PopCount(SetBit(w, p)) == PopCount(w) + 1
  {
    RankInsert(w, SetBit(w, p), p, q);
    RankInsert(w, SetBit(w, p), p, 0);
  }

  lemma {:induction false} RankClear(w: Word, p: nat, q: nat)
    requires p < 64 && Bit(w, p)
    ensures Rank(ClearBit(w, p), q) == Rank(w, q) - (if q <= p then 1 else 0)
    ensures PopCount(ClearBit(w, p)) == PopCount(w) - 1
  {
    RankInsert(ClearBit(w, p), w, p, q);
    RankInsert(ClearBit(w, p), w, p, 0);
  }

  // ----- a high part and n low bits ---------------------------------------------------

  lemma {:induction false} HighLowBound(q: nat, x: nat, m: nat, n: nat)
    requires q < Pow2(m) && x < Pow2(n)
    ensures Shl(q, n) + x < Pow2(m + n)
    decreases n
  {
    if n > 0 { HighLowBound(q, x / 2, m, n - 1); }
  }

  lemma {:induction false} OrHighLow(q: nat, x: nat, n: nat)
    requires x < Pow2(n)
    ensures Or(Shl(q, n), x) == Shl(q, n) + x
    decreases n
  {
    if n == 0 {
      OrZero(q);
    } else {
      OrHighLow(q, x / 2, n - 1);
      var y := Shl(q, n - 1);
      assert Shl(q, n) / 2 == y && Shl(q, n) % 2 == 0;
      if Shl(q, n) == 0 && x == 0 {
        assert Or(0, 0) == 0;
      } else {
        assert Or(Shl(q, n), x) == 2 * Or(y, x / 2) + x % 2;
      }
    }
  }

  lemma {:induction false} OrZero(q: nat)
    ensures Or(q, 0) == q
  {
    if q > 0 { OrZero(q / 2); }
  }

  lemma {:induction false} ShrHighLow(q: nat, x: nat, n: nat)
    requires x < Pow2(n)
    ensures Shr(Shl(q, n) + x, n) == q
    decreases n
  {
    if n > 0 {
      var y := Shl(q, n - 1);
      assert (2 * y + x) / 2 == y + x / 2;
      ShrHighLow(q, x / 2, n - 1);
    }
  }
}
