/** The longest shorter prefix, and whether a prefix is stored (lib/bitmap_v4.c, lib/bitmap.c). */
module Overlap {
  import opened Words
  import opened Addresses
  import opened Trees
  import opened LongestMatch
  import opened NodeSearch
  import opened Memory
  import opened Shapes
  import opened Search

  // ----- overlap detection ------------------------------------------------------------

  function Positive(x: int): nat {
    if x > 0 then x else 0
  }

  /** The longest match of t0 below `limit0` bits is that of t below `limit` bits, or else `best`. */
  ghost predicate Overlapping(t0: Tree, a0: Bits, limit0: nat, t: Tree, a: Bits, limit: int, step: nat,
                              best: Option<Hit>)
    requires Packed(t0) && limit0 <= |a0|
  {
    && Packed(t) && STRIDE <= |a| && limit <= |a|
    && Longest(Map(t0), a0, limit0) == OrElse(Deeper(Longest(Map(t), a, Positive(limit)), 6 * step), best)
  }

  lemma {:induction false} OverlapStarts(t: Tree, a: Bits, limit: nat)
    requires Packed(t) && limit <= |a| && STRIDE <= |a|
    ensures Overlapping(t, a, limit, t, a, limit, 0, None)
  {
  }

  /** The part of one node in the match. */
  lemma {:induction false} OverlapDown(t0: Tree, a0: Bits, limit0: nat, t: Tree, a: Bits, limit: int, step: nat,
                                       best: Option<Hit>)
    requires Packed(t0) && limit0 <= |a0| && Overlapping(t0, a0, limit0, t, a, limit, step, best)
    requires limit > 0 && Bit(t.ext, Val(a[..STRIDE]))
    ensures Packed(ChildAt(t, Val(a[..STRIDE])))
    ensures Overlapping(t0, a0, limit0, ChildAt(t, Val(a[..STRIDE])), Shifted(a), limit - STRIDE, step + 1,
                        OrElse(Deeper(NodeHit(t, a, Min(limit, STRIDE)), 6 * step), best))
  {
    var c := ChildAt(t, Val(a[..STRIDE]));
    if limit <= STRIDE {
      LongestNode(t, a, limit);
    } else {
      ShiftedContinues(a, limit);
      LongestDescend(t, a, Shifted(a), limit);
      AnswerTwice(Longest(Map(c), Shifted(a), limit - STRIDE), NodeHit(t, a, STRIDE), best, step);
    }
  }

  lemma {:induction false} OverlapStops(t0: Tree, a0: Bits, limit0: nat, t: Tree, a: Bits, limit: int, step: nat,
                                        best: Option<Hit>)
    requires Packed(t0) && limit0 <= |a0| && Overlapping(t0, a0, limit0, t, a, limit, step, best)
    requires limit > 0 && !Bit(t.ext, Val(a[..STRIDE]))
    ensures Longest(Map(t0), a0, limit0) == OrElse(Deeper(NodeHit(t, a, Min(limit, STRIDE)), 6 * step), best)
  {
    if limit <= STRIDE {
      LongestNode(t, a, limit);
    } else {
      LongestStop(t, a, limit);
    }
  }

  lemma {:induction false} OverlapEnds(t0: Tree, a0: Bits, limit0: nat, t: Tree, a: Bits, limit: int, step: nat,
                                       best: Option<Hit>)
    requires Packed(t0) && limit0 <= |a0| && Overlapping(t0, a0, limit0, t, a, limit, step, best) && limit <= 0
    ensures Longest(Map(t0), a0, limit0) == best
  {
  }

  /** The length that overlap detection returns: 0 also stands for no match. */
  function LenOf(h: Option<Hit>): nat {
    if h.Some? then h.value.len else 0
  }

  /** One node of the descent: find_overlap_in_node, and the note of what it found. */
  method OverlapNode(root: Ptr, n: Ptr, stride: nat, mask0: nat, limit: int, orgLimit: nat, step: nat,
                     finalMask0: nat, longest0: Option<Nhi>,
                     ghost s: Shape, ghost f: Shape, ghost a: Bits, ghost best: Option<Hit>)
    returns (mask: nat, finalMask: nat, longest: Option<Nhi>)
    requires Seen(root, s, n, f, step) && STRIDE <= |a| && stride == Val(a[..STRIDE]) && limit > 0
    requires orgLimit == limit + 6 * step
    requires finalMask0 == LenOf(best) && longest0 == NhiOpt(best)
    ensures Packed(Data(f)) && Min(limit, STRIDE) <= |a|
    ensures var b := OrElse(Deeper(NodeHit(Data(f), a, Min(limit, STRIDE)), 6 * step), best);
            finalMask == LenOf(b) && longest == NhiOpt(b)
  {
    SeenNode(root, s, n, f, step);
    FootAlloc(s);
    finalMask, longest := finalMask0, longest0;
    var limitInside := if limit > STRIDE then STRIDE else limit;
    var pos;
    pos, mask := FindOverlapInNode(n.arr[n.idx].internal, stride, mask0, limitInside, a);
    if pos != -1 {
      SeenRule(root, s, n, f, step, pos);
      var currMask := step * STRIDE + mask;
      if currMask < orgLimit {
        finalMask := currMask;
        longest := Some(NhiAt(n, pos));
      }
    }
  }

  lemma {:induction false} OverlapWords(ip: U32)
    ensures STRIDE == 6 && LENGTH == 32 && |Addr(ip)| == 32
    ensures Shr32(ip, LENGTH - STRIDE) == Val(Addr(ip)[..STRIDE]) < 64
    ensures Addr(Shl32(ip, STRIDE)) == Shifted(Addr(ip))
    ensures forall x: nat, y: nat :: Min(x, y) == if x > y then y else x
  {
    SearchStep(ip);
  }

  lemma {:induction false} OverlapNone()
    ensures LenOf(None) == 0 && NhiOpt(None) == None
  {
  }

  lemma {:induction false} OverlapHit(h: Option<Hit>)
    ensures LenOf(h) != 0 ==> NhiOpt(h) == Some(NhiOf(h))
  {
  }

  /** bitmap_detect_overlap_generic: the longest stored prefix of the address that is shorter than
      both cidr and bitsLimit. `nhi` stays as it was when there is none. */
  method DetectOverlapGeneric(root: Ptr, ip0: U32, cidr: nat, bitsLimit: nat, nhi0: Nhi, ghost s: Shape)
    returns (finalMask: nat, nhi: Nhi)
    requires At(root, s) && Match(s, 0) && Packed(Data(s)) && cidr <= LENGTH
    ensures var h := Longest(Map(Data(s)), Addr(ip0), Min(cidr, bitsLimit));
            finalMask == LenOf(h) && nhi == if finalMask != 0 then NhiOf(h) else nhi0
  {
    hide *;
    var n, ip: U32, mask: nat, step: nat, longest: Option<Nhi> := root, ip0, 0, 0, None;
    OverlapWords(ip);
    finalMask := 0;
    var limit: int := if cidr > bitsLimit then bitsLimit else cidr;
    var orgLimit := limit;
    ghost var f, best: Option<Hit> := s, None;
    OverlapNone();
    SeenRoot(root, s);
    FootAlloc(s);
    OverlapStarts(Data(s), Addr(ip0), orgLimit);
    while limit > 0
      invariant Seen(root, s, n, f, step) && orgLimit == limit + 6 * step
      invariant Overlapping(Data(s), Addr(ip0), orgLimit, Data(f), Addr(ip), limit, step, best)
      invariant finalMask == LenOf(best) && longest == NhiOpt(best)
    {
      OverlapWords(ip);
      SeenNode(root, s, n, f, step);
      var stride := Shr32(ip, LENGTH - STRIDE);
      mask, finalMask, longest := OverlapNode(root, n, stride, mask, limit, orgLimit, step, finalMask, longest, s,
                                              f, Addr(ip), best);
      ghost var b := OrElse(Deeper(NodeHit(Data(f), Addr(ip), Min(limit, STRIDE)), 6 * step), best);
      if TestBit(n.arr[n.idx].external, stride) {
        OverlapDown(Data(s), Addr(ip0), orgLimit, Data(f), Addr(ip), limit, step, best);
        f := SeenChild(root, s, n, f, step, stride);
        n := NextChild(n, stride);
        ip := Shl32(ip, STRIDE);
      } else {
        OverlapStops(Data(s), Addr(ip0), orgLimit, Data(f), Addr(ip), limit, step, best);
        best := b;
        break;
      }
      best := b;
      limit := limit - STRIDE;
      step := step + 1;
    }
    if limit <= 0 {
      OverlapEnds(Data(s), Addr(ip0), orgLimit, Data(f), Addr(ip), limit, step, best);
    }
    OverlapHit(best);
    nhi := nhi0;
    if finalMask != 0 {
      nhi := longest.value;
    }
  }

  // ----- prefix exists ----------------------------------------------------------------

  /** A key longer than a stride is looked up in the child. */
  lemma {:induction false} KeyGoesOn(t: Tree, k: Bits)
    requires Packed(t) && |k| >= STRIDE
    ensures Val(k[..STRIDE]) < 64 && TestBit(t.ext, Val(k[..STRIDE])) == Bit(t.ext, Val(k[..STRIDE]))
    ensures Get(t, k) == if Bit(t.ext, Val(k[..STRIDE])) then Get(ChildAt(t, Val(k[..STRIDE])), k[STRIDE..]) else None
  {
    StrideBound(k);
  }

  lemma {:induction false} KeyEnds(t: Tree, k: Bits)
    requires Packed(t) && |k| < STRIDE
    ensures Pos(k) < 64 && TestBit(t.inl, Pos(k)) == Get(t, k).Some?
  {
    PosSmall(k);
  }

  /** bitmap_traverse_branch with prefix_exist_func. */
  method PrefixExist(root: Ptr, ip0: U32, cidr0: nat, ghost s: Shape) returns (r: int)
    requires At(root, s) && Match(s, 0) && Packed(Data(s)) && cidr0 <= LENGTH && HostZero(ip0, cidr0)
    ensures r == if Get(Data(s), Key(ip0, cidr0)).Some? then 1 else 0
  {
    hide *;
    var n, ip: U32, cidr: nat := root, ip0, cidr0;
    ghost var f, d: nat := s, 0;
    KeyWords(ip, cidr);
    SeenRoot(root, s);
    while cidr >= STRIDE
      invariant Seen(root, s, n, f, d) && Packed(Data(f)) && cidr <= LENGTH && HostZero(ip, cidr)
      invariant Get(Data(f), Key(ip, cidr)) == Get(Data(s), Key(ip0, cidr0))
    {
      SeenNode(root, s, n, f, d);
      KeyWords(ip, cidr);
      KeyGoesOn(Data(f), Key(ip, cidr));
      var stride := Shr32(ip, LENGTH - STRIDE);
      if !TestBit(n.arr[n.idx].external, stride) {
        return 0;
      }
      f := SeenChild(root, s, n, f, d, stride);
      d := d + 1;
      n := NextChild(n, stride);
      cidr := cidr - STRIDE;
      ip := Shl32(ip, STRIDE);
    }
    SeenNode(root, s, n, f, d);
    KeyWords(ip, cidr);
    KeyEnds(Data(f), Key(ip, cidr));
    var stride := Shr32(ip, LENGTH - cidr);
    r := if TestBit(n.arr[n.idx].internal, CountInlBitmap(stride, cidr)) then 1 else 0;
  }
}
