/** Prefixes as bit strings, most significant bit first, and the shifts by which the program
    cuts a left-aligned address into strides. */
module Addresses {
  import opened Words

  const LENGTH: nat := 32
  const STRIDE: nat := 6
  const BITMAP_BITS: nat := 64

  type U32 = x: nat | x < 0x1_0000_0000

  type Bits = seq<bool>

  function Val(s: Bits): nat {
    if s == [] then 0 else 2 * Val(s[..|s| - 1]) + (if s[|s| - 1] then 1 else 0)
  }

  function ToBits(x: nat, n: nat): (r: Bits)
    ensures |r| == n
  {
    if n == 0 then [] else ToBits(x / 2, n - 1) + [x % 2 == 1]
  }

  function Zeros(n: nat): Bits {
    seq(n, _ => false)
  }

  // ----- numbers and bit strings ------------------------------------------------------

  lemma {:induction false} ValBound(s: Bits)
    ensures Val(s) < Pow2(|s|)
  {
    if s != [] { ValBound(s[..|s| - 1]); }
  }

  lemma {:induction false} ToBitsVal(s: Bits)
    ensures ToBits(Val(s), |s|) == s
  {
    if s != [] {
      ToBitsVal(s[..|s| - 1]);
      assert Val(s) / 2 == Val(s[..|s| - 1]);
    }
  }

  lemma {:induction false} ValToBits(x: nat, n: nat)
    requires x < Pow2(n)
    ensures Val(ToBits(x, n)) == x
  {
    if n > 0 {
      ValToBits(x / 2, n - 1);
      assert ToBits(x, n)[..n - 1] == ToBits(x / 2, n - 1);
    }
  }

  lemma {:induction false} ValInjective(s: Bits, t: Bits)
    requires |s| == |t| && Val(s) == Val(t)
    ensures s == t
  {
    ToBitsVal(s);
    ToBitsVal(t);
  }

  lemma {:induction false} ToBitsSplit(x: nat, m: nat, n: nat)
    ensures ToBits(x, m + n) == ToBits(Shr(x, n), m) + ToBits(x, n)
    decreases n
  {
    if n > 0 {
      ToBitsSplit(x / 2, m, n - 1);
    }
  }

  lemma {:induction false} ToBitsShl(x: nat, n: nat, k: nat)
    ensures ToBits(Shl(x, k), n + k) == ToBits(x, n) + Zeros(k)
    decreases k
  {
    if k > 0 {
      ToBitsShl(x, n, k - 1);
      assert Zeros(k) == Zeros(k - 1) + [false];
    }
  }

  /** Only the low n bits of a number show in its last n bits. */
  lemma {:induction false} ToBitsAddHigh(q: nat, x: nat, n: nat)
    ensures ToBits(Shl(q, n) + x, n) == ToBits(x, n)
    decreases n
  {
    if n > 0 {
      var y := Shl(q, n - 1);
      assert (2 * y + x) / 2 == y + x / 2 && (2 * y + x) % 2 == x % 2;
      ToBitsAddHigh(q, x / 2, n - 1);
    }
  }

  lemma {:induction false} ZeroBits(n: nat)
    ensures ToBits(0, n) == Zeros(n)
  {
    if n > 0 {
      ZeroBits(n - 1);
      assert Zeros(n) == Zeros(n - 1) + [false];
    }
  }

  lemma {:induction false} ValZeros(s: Bits)
    requires forall j | 0 <= j < |s| :: !s[j]
    ensures Val(s) == 0
  {
    if s != [] { ValZeros(s[..|s| - 1]); }
  }

  /** A number is its high part, shifted, and its low n bits. */
  lemma {:induction false} HighLow(x: nat, n: nat)
    ensures x == Shl(Shr(x, n), n) + Val(ToBits(x, n)) && Val(ToBits(x, n)) < Pow2(n)
    decreases n
  {
    ValBound(ToBits(x, n));
    if n > 0 {
      HighLow(x / 2, n - 1);
      assert ToBits(x, n)[..n - 1] == ToBits(x / 2, n - 1);
    }
  }

  // ----- positions in the internal bitmap ---------------------------------------------

  /** The internal position of `bit` among the prefixes of length `cidr`. */
  function CountInlBitmap(bit: nat, cidr: nat): (r: nat) {
    Pow2(cidr) + bit - 1
  }

  /** The internal position of the prefix s. */
  function Pos(s: Bits): nat {
    Pow2(|s|) - 1 + Val(s)
  }

  /** A position belongs to a prefix of length at most n exactly when it is below 2^(n+1) - 1. */
  lemma {:induction false} PosBound(s: Bits, n: nat)
    ensures |s| <= n <==> Pos(s) + 1 < Pow2(n + 1)
  {
    ValBound(s);
    if |s| <= n { Pow2Mono(|s| + 1, n + 1); }
    else { Pow2Mono(n + 1, |s|); }
  }

  /** Longer prefixes have higher positions. */
  lemma {:induction false} PosMono(s: Bits, t: Bits)
    requires |s| < |t|
    ensures Pos(s) < Pos(t)
  {
    ValBound(s);
    Pow2Mono(|s| + 1, |t|);
  }

  lemma {:induction false} PosInjective(s: Bits, t: Bits)
    requires Pos(s) == Pos(t)
    ensures s == t
  {
    if |s| < |t| { PosMono(s, t); }
    else if |t| < |s| { PosMono(t, s); }
    else { ValInjective(s, t); }
  }

  lemma {:induction false} PosSurjective(p: nat) returns (s: Bits)
    ensures Pos(s) == p
  {
    if p == 0 {
      s := [];
    } else {
      var t := PosSurjective((p - 1) / 2);
      s := t + [p % 2 == 0];
      assert s[..|s| - 1] == t;
    }
  }

  lemma {:induction false} PosSmall(s: Bits)
    requires |s| < STRIDE
    ensures Pos(s) < 63
  {
    PosBound(s, 5);
    Pow2Thirty2();
  }

  lemma {:induction false} StrideBound(k: Bits)
    requires |k| >= STRIDE
    ensures Val(k[..STRIDE]) < 64
  {
    ValBound(k[..STRIDE]);
    Pow2Thirty2();
  }

  // ----- IPv4 addresses ---------------------------------------------------------------

  /** `x >> k` on 32 bits; a count of 32 shifts by 0, as the hardware does. */
  function Shr32(x: U32, k: nat): nat {
    Shr(x, k % 32)
  }

  /** `x << k` on 32 bits. */
  function Shl32(x: U32, k: nat): U32
    requires k < 32
  {
    Shl(x, k) % 0x1_0000_0000
  }

  function Addr(ip: U32): (r: Bits)
    ensures |r| == 32
  {
    ToBits(ip, LENGTH)
  }

  /** The prefix ip/cidr as a bit string. */
  function Key(ip: U32, cidr: nat): (r: Bits)
    requires cidr <= LENGTH
    ensures |r| == cidr
  {
    Addr(ip)[..cidr]
  }

  /** The caller's obligation: the unmasked part of the address is zero. */
  predicate HostZero(ip: U32, cidr: nat)
    requires cidr <= LENGTH
  {
    forall j | cidr <= j < LENGTH :: !Addr(ip)[j]
  }

  lemma {:induction false} AddrVal(ip: U32)
    ensures Val(Addr(ip)) == ip
  {
    Pow2Thirty2();
    ValToBits(ip, 32);
  }

  lemma {:induction false} ShrBelow(x: nat, n: nat, k: nat)
    requires x < Pow2(n + k)
    ensures Shr(x, k) < Pow2(n)
    decreases k
  {
    if k > 0 { ShrBelow(x / 2, n, k - 1); }
  }

  lemma {:induction false} TopBits(x: nat, n: nat, k: nat)
    requires x < Pow2(n + k)
    ensures Shr(x, k) == Val(ToBits(x, n + k)[..n]) < Pow2(n)
  {
    ToBitsSplit(x, n, k);
    ShrBelow(x, n, k);
    ValToBits(Shr(x, k), n);
    assert ToBits(x, n + k)[..n] == ToBits(Shr(x, k), n);
  }

  /** Shifting right by 32 - n leaves the number written by the top n bits. */
  lemma {:induction false} ShrVal(ip: U32, n: nat)
    requires 0 < n <= LENGTH
    ensures Shr32(ip, LENGTH - n) == Val(Addr(ip)[..n]) < Pow2(n)
  {
    var k := LENGTH - n;
    assert 0 <= k < 32;
    assert k % 32 == k;
    assert ip < Pow2(n + k) by { Pow2Thirty2(); }
    TopBits(ip, n, k);
    assert Shr32(ip, k) == Shr(ip, k);
  }

  lemma {:induction false} ShlMul(q: nat, n: nat)
    ensures Shl(q, n) == q * Pow2(n)
    decreases n
  {
    if n > 0 {
      ShlMul(q, n - 1);
      var p := Pow2(n - 1);
      assert 2 * (q * p) == q * (2 * p);
    }
  }

  /** `ip <<= k` drops the top k bits and appends zeros. */
  lemma {:induction false} ShlAddr(ip: U32, k: nat)
    requires k < LENGTH
    ensures Addr(Shl32(ip, k)) == Addr(ip)[k..] + Zeros(k)
  {
    var y := Shl(ip, k);
    var q, r := y / 0x1_0000_0000, y % 0x1_0000_0000;
    assert Shl(q, 32) == q * 0x1_0000_0000 by { ShlMul(q, 32); Pow2Thirty2(); }
    ToBitsAddHigh(q, r, 32);
    ToBitsShl(ip, 32 - k, k);
    ToBitsSplit(ip, k, 32 - k);
  }

  lemma {:induction false} LeafStride(ip: U32, cidr: nat)
    requires cidr < STRIDE && HostZero(ip, cidr)
    ensures Shr32(ip, LENGTH - cidr) == Val(Key(ip, cidr))
  {
    if cidr == 0 {
      AddrVal(ip);
      ValZeros(Addr(ip));
    } else {
      ShrVal(ip, cidr);
    }
  }

  /** One step of the descent: the key loses its first stride and stays well formed. */
  lemma {:induction false} KeyStep(ip: U32, cidr: nat)
    requires STRIDE <= cidr <= LENGTH && HostZero(ip, cidr)
    ensures Shr32(ip, LENGTH - STRIDE) == Val(Key(ip, cidr)[..STRIDE]) < 64
    ensures Key(Shl32(ip, STRIDE), cidr - STRIDE) == Key(ip, cidr)[STRIDE..]
    ensures HostZero(Shl32(ip, STRIDE), cidr - STRIDE)
  {
    Pow2Thirty2();
    ShrVal(ip, STRIDE);
    ShlAddr(ip, STRIDE);
    assert Addr(ip)[..STRIDE] == Key(ip, cidr)[..STRIDE];
    forall j | cidr - STRIDE <= j < LENGTH ensures !Addr(Shl32(ip, STRIDE))[j] {
      if j < LENGTH - STRIDE { assert Addr(Shl32(ip, STRIDE))[j] == Addr(ip)[j + STRIDE]; }
    }
  }

  /** One step of a search: the next stride is the number of the first six bits. */
  lemma {:induction false} SearchStep(ip: U32)
    ensures Shr32(ip, LENGTH - STRIDE) == Val(Addr(ip)[..STRIDE]) < 64
    ensures Addr(Shl32(ip, STRIDE)) == Addr(ip)[STRIDE..] + Zeros(STRIDE)
  {
    Pow2Thirty2();
    ShrVal(ip, STRIDE);
    ShlAddr(ip, STRIDE);
  }

  /** What the loops need to know of the words of a prefix. */
  lemma {:induction false} KeyWords(ip: U32, cidr: nat)
    requires cidr <= LENGTH && HostZero(ip, cidr)
    ensures STRIDE == 6 && LENGTH == 32 && |Key(ip, cidr)| == cidr
    ensures cidr >= STRIDE ==>
              && Shr32(ip, LENGTH - STRIDE) == Val(Key(ip, cidr)[..STRIDE])
              && Key(Shl32(ip, STRIDE), cidr - STRIDE) == Key(ip, cidr)[STRIDE..]
              && HostZero(Shl32(ip, STRIDE), cidr - STRIDE)
    ensures cidr < STRIDE ==> CountInlBitmap(Shr32(ip, LENGTH - cidr), cidr) == Pos(Key(ip, cidr))
  {
    if cidr >= STRIDE { KeyStep(ip, cidr); } else { LeafStride(ip, cidr); }
  }
}
