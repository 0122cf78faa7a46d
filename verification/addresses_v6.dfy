/** IPv6 addresses as two 64-bit words, and their shifts (lib/bitmap_v6.c). */
module AddressesV6 {
  import opened Words
  import opened Addresses
  import opened LongestMatch

  const LENGTH_V6: nat := 128

  /** The value of a struct ip_v6. */
  datatype Ip6 = Ip6(iphi: Word, iplo: Word)

  /** `x << k` and `x >> k` on 64 bits: the hardware takes the count modulo 64. */
  function Shl64(x: Word, k: nat): Word {
    Shl(x, k % 64) % WORD_LIMIT
  }

  function Shr64(x: Word, k: nat): (r: Word) {
    ShrWord(x, k % 64);
    Shr(x, k % 64)
  }

  lemma {:induction false} ShrWord(x: Word, k: nat)
    ensures Shr(x, k) <= x
    decreases k
  {
    if k > 0 { ShrWord(x / 2, k - 1); }
  }

  function Or64(a: Word, b: Word): (r: Word)
    ensures forall p: nat :: Bit(r, p) == (Bit(a, p) || Bit(b, p))
  {
    Pow2Sixty4();
    forall p: nat ensures Bit(Or(a, b), p) == (Bit(a, p) || Bit(b, p)) { OrBit(a, b, p); }
    forall p: nat | Bit(Or(a, b), p) ensures p < 64 {
      if Bit(a, p) { WordBit(a, p); } else { WordBit(b, p); }
    }
    BitsBelow(Or(a, b), 64);
    Or(a, b)
  }

  // ----- the shifts -------------------------------------------------------------------

  function LShift(ip: Ip6, bits: nat): Ip6 {
    if bits < 64 then Ip6(Or64(Shl64(ip.iphi, bits), Shr64(ip.iplo, 64 - bits)), Shl64(ip.iplo, bits))
    else if bits > 64 then Ip6(Shl64(ip.iplo, bits - 64), 0)
    else Ip6(ip.iplo, 0)
  }

  function RShift(ip: Ip6, bits: nat): Ip6 {
    if bits < 64 then Ip6(Shr64(ip.iphi, bits), Or64(Shr64(ip.iplo, bits), Shl64(ip.iphi, 64 - bits)))
    else if bits > 64 then Ip6(0, Shr64(ip.iphi, bits - 64))
    else Ip6(0, ip.iphi)
  }

  /** struct ip_v6. */
  class IpV6 {
    var iphi: Word
    var iplo: Word

    function Value(): Ip6
      reads this
    {
      Ip6(iphi, iplo)
    }

    constructor (iphi: Word, iplo: Word)
      ensures Value() == Ip6(iphi, iplo)
    {
      this.iphi, this.iplo := iphi, iplo;
    }

    /** lshift_ipv6: multiplies by 2^bits modulo 2^128. */
    method LshiftIpv6(bits: nat)
      requires 1 <= bits <= 127
      modifies this
      ensures Value() == LShift(old(Value()), bits)
      ensures Number(Value()) == Number(old(Value())) * Pow2(bits) % Pow2(128)
    {
      LShiftNumber(Value(), bits);
      ShiftsScale(Number(Value()), bits);
      if bits < 64 {
        var head := Shr64(iplo, 64 - bits);
        iphi := Shl64(iphi, bits);
        iplo := Shl64(iplo, bits);
        iphi := Or64(iphi, head);
      } else if bits > 64 {
        var head := Shl64(iplo, bits - 64);
        iphi := head;
        iplo := 0;
      } else {
        iphi := iplo;
        iplo := 0;
      }
    }

    /** rshift_ipv6: divides by 2^bits. */
    method RshiftIpv6(bits: nat)
      requires 1 <= bits <= 127
      modifies this
      ensures Value() == RShift(old(Value()), bits)
      ensures Number(Value()) == Number(old(Value())) / Pow2(bits)
    {
      RShiftNumber(Value(), bits);
      ShiftsScale(Number(Value()), bits);
      if bits < 64 {
        var tail := Shl64(iphi, 64 - bits);
        iphi := Shr64(iphi, bits);
        iplo := Shr64(iplo, bits);
        iplo := Or64(iplo, tail);
      } else if bits > 64 {
        var tail := Shr64(iphi, bits - 64);
        iplo := tail;
        iphi := 0;
      } else {
        iplo := iphi;
        iphi := 0;
      }
    }
  }

  // ----- words as bit strings ---------------------------------------------------------

  /** The 128 bits of an address, most significant first. */
  function Addr6(ip: Ip6): (r: Bits)
    ensures |r| == 128
  {
    ToBits(ip.iphi, 64) + ToBits(ip.iplo, 64)
  }

  /** The address as a number. */
  function Number(ip: Ip6): nat {
    Shl(ip.iphi, 64) + ip.iplo
  }

  lemma {:induction false} ToBitsAt(x: nat, n: nat, j: nat)
    requires j < n
    ensures ToBits(x, n)[j] == Bit(x, n - 1 - j)
    decreases n
  {
    if j < n - 1 { ToBitsAt(x / 2, n - 1, j); }
  }

  lemma {:induction false} ToBitsPad(x: nat, m: nat, n: nat)
    requires x < Pow2(n)
    ensures ToBits(x, m + n) == Zeros(m) + ToBits(x, n)
  {
    ToBitsSplit(x, m, n);
    ShrBelow(x, 0, n);
    ZeroBits(m);
  }

  lemma {:induction false} LowWord(x: nat)
    ensures ToBits(x % WORD_LIMIT, 64) == ToBits(x, 64)
  {
    var q, r := x / WORD_LIMIT, x % WORD_LIMIT;
    Pow2Sixty4();
    ShlMul(q, 64);
    ToBitsAddHigh(q, r, 64);
  }

  lemma {:induction false} ShlBits(x: Word, k: nat)
    requires k < 64
    ensures ToBits(Shl64(x, k), 64) == ToBits(x, 64)[k..] + Zeros(k)
  {
    hide ToBits, Shl, Shr;
    LowWord(Shl(x, k));
    ToBitsShl(x, 64 - k, k);
    ToBitsSplit(x, k, 64 - k);
  }

  lemma {:induction false} ShrBits(x: Word, k: nat)
    requires k < 64
    ensures ToBits(Shr64(x, k), 64) == Zeros(k) + ToBits(x, 64)[..64 - k]
  {
    Pow2Sixty4();
    ToBitsSplit(x, 64 - k, k);
    ShrBelow(x, 64 - k, k);
    ToBitsPad(Shr(x, k), k, 64 - k);
  }

  /** Or-ing two words with disjoint halves joins them. */
  lemma {:induction false} OrJoin(a: Word, b: Word, s: Bits, t: Bits)
    requires |s| + |t| == 64 && ToBits(a, 64) == s + Zeros(|t|) && ToBits(b, 64) == Zeros(|s|) + t
    ensures ToBits(Or64(a, b), 64) == s + t && ToBits(Or64(b, a), 64) == s + t
  {
    forall j | 0 <= j < 64 ensures ToBits(Or64(a, b), 64)[j] == (s + t)[j]
        && ToBits(Or64(b, a), 64)[j] == (s + t)[j] {
      ToBitsAt(Or64(a, b), 64, j);
      ToBitsAt(Or64(b, a), 64, j);
      ToBitsAt(a, 64, j);
      ToBitsAt(b, 64, j);
    }
  }

  /** A left shift drops the first bits and appends zeros. */
  lemma {:induction false} LShiftBits(ip: Ip6, bits: nat)
    requires 1 <= bits <= 127
    ensures Addr6(LShift(ip, bits)) == Addr6(ip)[bits..] + Zeros(bits)
  {
    hide ToBits, Shl64, Shr64, Or64;
    var h, l := ToBits(ip.iphi, 64), ToBits(ip.iplo, 64);
    ZeroBits(64);
    if bits < 64 {
      ShlBits(ip.iphi, bits);
      ShlBits(ip.iplo, bits);
      ShrBits(ip.iplo, 64 - bits);
      OrJoin(Shl64(ip.iphi, bits), Shr64(ip.iplo, 64 - bits), h[bits..], l[..bits]);
    } else if bits > 64 {
      ShlBits(ip.iplo, bits - 64);
      assert Zeros(bits) == Zeros(bits - 64) + Zeros(64);
    }
  }

  /** A right shift drops the last bits and puts zeros in front. */
  lemma {:induction false} RShiftBits(ip: Ip6, bits: nat)
    requires 1 <= bits <= 127
    ensures Addr6(RShift(ip, bits)) == Zeros(bits) + Addr6(ip)[..128 - bits]
  {
    hide ToBits, Shl64, Shr64, Or64;
    var h, l := ToBits(ip.iphi, 64), ToBits(ip.iplo, 64);
    ZeroBits(64);
    if bits < 64 {
      ShrBits(ip.iphi, bits);
      ShrBits(ip.iplo, bits);
      ShlBits(ip.iphi, 64 - bits);
      OrJoin(Shl64(ip.iphi, 64 - bits), Shr64(ip.iplo, bits), h[64 - bits..], l[..64 - bits]);
      assert (h + l)[..128 - bits] == h[..64 - bits] + (h[64 - bits..] + l[..64 - bits]);
    } else if bits > 64 {
      ShrBits(ip.iphi, bits - 64);
      assert Zeros(bits) == Zeros(64) + Zeros(bits - 64);
    }
  }

  // ----- 128-bit numbers --------------------------------------------------------------

  lemma {:induction false} NumberIs(ip: Ip6)
    ensures Number(ip) == Val(Addr6(ip)) < Pow2(128) && Addr6(ip) == ToBits(Number(ip), 128)
  {
    hide ToBits, Shl, Shr, Val, Pow2;
    Pow2Sixty4();
    ToBitsSplit(Number(ip), 64, 64);
    ShrHighLow(ip.iphi, ip.iplo, 64);
    ToBitsAddHigh(ip.iphi, ip.iplo, 64);
    HighLowBound(ip.iphi, ip.iplo, 64, 64);
    ValToBits(Number(ip), 128);
  }

  const TWO_128: nat := 0x1_0000_0000_0000_0000_0000_0000_0000_0000

  lemma {:induction false} Pow2Wide()
    ensures Pow2(128) == TWO_128
  {
    hide Pow2;
    Pow2Sixty4();
    Pow2Add(64, 64);
  }

  lemma {:induction false} LowHalf(x: nat)
    ensures Val(ToBits(x, 128)) == x % Pow2(128)
  {
    hide Shl, Shr, Val, ToBits, Pow2;
    HighLow(x, 128);
    ShlMul(Shr(x, 128), 128);
    Pow2Wide();
    var q, r := Shr(x, 128), Val(ToBits(x, 128));
    assert x == q * TWO_128 + r;
  }

  lemma {:induction false} LShiftNumber(ip: Ip6, bits: nat)
    requires 1 <= bits <= 127
    ensures Number(LShift(ip, bits)) == Shl(Number(ip), bits) % Pow2(128)
  {
    var n := Number(ip);
    LShiftBits(ip, bits);
    NumberIs(ip);
    NumberIs(LShift(ip, bits));
    ToBitsShl(n, 128 - bits, bits);
    ToBitsSplit(n, bits, 128 - bits);
    LowHalf(Shl(n, bits));
  }

  lemma {:induction false} RShiftNumber(ip: Ip6, bits: nat)
    requires 1 <= bits <= 127
    ensures Number(RShift(ip, bits)) == Shr(Number(ip), bits)
  {
    var n := Number(ip);
    RShiftBits(ip, bits);
    NumberIs(ip);
    NumberIs(RShift(ip, bits));
    ToBitsSplit(n, 128 - bits, bits);
    ShrBelow(n, 128 - bits, bits);
    ToBitsPad(Shr(n, bits), bits, 128 - bits);
    Pow2Mono(128 - bits, 128);
    ValToBits(Shr(n, bits), 128);
  }

  lemma {:induction false} MulOrder(a: nat, b: nat, d: nat)
    requires a <= b
    ensures a * d <= b * d
  {
    if a < b {
      MulOrder(a, b - 1, d);
      assert b * d == (b - 1) * d + d;
    }
  }

  lemma {:induction false} QuotientIs(x: nat, d: nat, q: nat)
    requires d > 0 && q * d <= x < q * d + d
    ensures x / d == q
  {
    var k := x / d;
    assert x == k * d + x % d;
    if k != q {
      var lo, hi := if k < q then k else q, if k < q then q else k;
      assert (lo + 1) * d == lo * d + d;
      MulOrder(lo + 1, hi, d);
    }
  }

  /** Shl and Shr are multiplication and rounded-down division by a power of two. */
  lemma {:induction false} ShiftsScale(x: nat, k: nat)
    ensures Shl(x, k) == x * Pow2(k)
    ensures Shr(x, k) == x / Pow2(k)
  {
    ShlMul(x, k);
    HighLow(x, k);
    ShlMul(Shr(x, k), k);
    QuotientIs(x, Pow2(k), Shr(x, k));
  }

  // ----- keys and strides -------------------------------------------------------------

  /** The prefix ip/cidr as a bit string. */
  function Key6(ip: Ip6, cidr: nat): (r: Bits)
    requires cidr <= LENGTH_V6
    ensures |r| == cidr
  {
    Addr6(ip)[..cidr]
  }

  /** The unmasked part of the address is zero; in particular the address of a prefix of length 0. */
  predicate HostZero6(ip: Ip6, cidr: nat)
    requires cidr <= LENGTH_V6
  {
    forall j | cidr <= j < LENGTH_V6 :: !Addr6(ip)[j]
  }

  lemma {:induction false} ValPad(m: nat, s: Bits)
    ensures Val(Zeros(m) + s) == Val(s)
  {
    if s == [] {
      assert Zeros(m) + s == Zeros(m);
      ValZeros(Zeros(m));
    } else {
      var t := s[..|s| - 1];
      ValPad(m, t);
      assert (Zeros(m) + s)[..m + |s| - 1] == Zeros(m) + t;
    }
  }

  /** After a right shift that leaves n bits, the low word is the number they write. */
  lemma {:induction false} HeadBits(ip: Ip6, n: nat)
    requires 1 <= n < 64
    ensures RShift(ip, LENGTH_V6 - n).iplo == Val(Addr6(ip)[..n]) < Pow2(n)
  {
    hide ToBits, Val, RShift, Shl64, Shr64, Or64;
    var k, r := LENGTH_V6 - n, RShift(ip, LENGTH_V6 - n);
    RShiftBits(ip, k);
    assert Addr6(r)[64..] == Zeros(64 - n) + Addr6(ip)[..n];
    assert Addr6(r)[64..] == ToBits(r.iplo, 64);
    Pow2Sixty4();
    ValToBits(r.iplo, 64);
    ValPad(64 - n, Addr6(ip)[..n]);
    ValBound(Addr6(ip)[..n]);
  }

  /** The number of a stride. */
  lemma {:induction false} TopWord(ip: Ip6, n: nat)
    requires 1 <= n <= 6
    ensures RShift(ip, LENGTH_V6 - n).iplo == Val(Addr6(ip)[..n]) < 64
  {
    HeadBits(ip, n);
    Pow2Mono(n, 6);
    Pow2Thirty2();
  }

  /** The last stride of a prefix; a shift by the full width only ever sees the address 0. */
  lemma {:induction false} LeafStride6(ip: Ip6, cidr: nat)
    requires cidr < STRIDE && HostZero6(ip, cidr)
    ensures RShift(ip, LENGTH_V6 - cidr).iplo == Val(Key6(ip, cidr)) < 64
  {
    hide ToBits, Or64, Shl64, LShift;
    if cidr > 0 {
      TopWord(ip, cidr);
    } else {
      NumberIs(ip);
      ValZeros(Addr6(ip));
      ShlLow(ip.iphi, 64);
      ShrZero(64);
    }
  }

  lemma {:induction false} ShlLow(x: nat, n: nat)
    ensures Shl(x, n) >= x
  {
    if n > 0 { ShlLow(x, n - 1); }
  }

  lemma {:induction false} ShrZero(n: nat)
    ensures Shr(0, n) == 0
  {
    if n > 0 { ShrZero(n - 1); }
  }

  /** What the loops need to know of the words of an address. */
  lemma {:induction false} SearchWords6(ip: Ip6)
    ensures STRIDE == 6 && LENGTH_V6 == 128 && |Addr6(ip)| == 128
    ensures RShift(ip, LENGTH_V6 - STRIDE).iplo == Val(Addr6(ip)[..STRIDE]) < 64
    ensures Addr6(LShift(ip, STRIDE)) == Shifted(Addr6(ip))
  {
    TopWord(ip, STRIDE);
    LShiftBits(ip, STRIDE);
  }

  /** What the loops need to know of the words of a prefix. */
  lemma {:induction false} KeyWords6(ip: Ip6, cidr: nat)
    requires cidr <= LENGTH_V6 && HostZero6(ip, cidr)
    ensures STRIDE == 6 && LENGTH_V6 == 128 && |Key6(ip, cidr)| == cidr
    ensures cidr >= STRIDE ==>
              && RShift(ip, LENGTH_V6 - STRIDE).iplo == Val(Key6(ip, cidr)[..STRIDE])
              && Key6(LShift(ip, STRIDE), cidr - STRIDE) == Key6(ip, cidr)[STRIDE..]
              && HostZero6(LShift(ip, STRIDE), cidr - STRIDE)
    ensures cidr < STRIDE ==>
              CountInlBitmap(RShift(ip, LENGTH_V6 - cidr).iplo, cidr) == Pos(Key6(ip, cidr))
  {
    if cidr >= STRIDE {
      SearchWords6(ip);
      assert Addr6(ip)[..STRIDE] == Key6(ip, cidr)[..STRIDE];
      forall j | cidr - STRIDE <= j < LENGTH_V6 ensures !Addr6(LShift(ip, STRIDE))[j] {
        if j < LENGTH_V6 - STRIDE { assert Addr6(LShift(ip, STRIDE))[j] == Addr6(ip)[j + STRIDE]; }
      }
    } else {
      LeafStride6(ip, cidr);
    }
  }
}
