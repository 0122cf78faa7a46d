/** The trie of IPv6 prefixes (lib/bitmap_v6.c): the same node operations as for IPv4, with
    addresses of two words. A struct ip_v6 that a loop keeps in a local variable is a value here. */
module BitmapV6 {
  import opened Words
  import opened Addresses
  import opened AddressesV6
  import opened Trees
  import opened Memory
  import opened Shapes
  import opened MbNode
  import opened Usage
  import opened Spine
  import opened Walk
  import opened Insertion
  import opened Deletion
  import opened LongestMatch
  import opened NodeSearch
  import opened Search
  import opened Overlap

  /** UPDATE_LEVEL_v6 and LEVEL_v6, (LENGTH_v6 / STRIDE) + 1. */
  const UPDATE_LEVEL_V6: nat := 22
  const LEVEL_V6: nat := 22

  /** The depth of the tries fits the trace. */
  lemma {:induction false} Depth6(cidr: nat)
    requires cidr <= LENGTH_V6
    ensures cidr <= MAX_KEY && cidr < 6 * UPDATE_LEVEL_V6
  {
  }

  /** bitmapv6_insert_prefix: map update on the trie, in place. */
  method InsertPrefix(root: Ptr, m: Mm, ip0: Ip6, cidr0: nat, nhi: Nhi, ghost s: Shape)
    returns (r: int, ghost s': Shape)
    requires Owned(m, root, s, 0) && Packed(Data(s)) && cidr0 <= LENGTH_V6 && HostZero6(ip0, cidr0)
    modifies m.Repr(), root.arr, Foot(s)
    ensures Owned(m, root, s', 0) && OthersKept(root, old(root.arr[..])) && fresh(Foot(s') - Foot(s))
    ensures Data(s') == InsertT(Data(s), Key6(ip0, cidr0), nhi)
    ensures r == if Get(Data(s), Key6(ip0, cidr0)).Some? then 1 else 0
    ensures Follows(old(m.units), m.units, Data(s), Data(s')) && old(m.used) - Foot(s) <= m.used
  {
    hide *;
    var node, ip: Ip6, cidr: nat, level: nat := root, ip0, cidr0, 0;
    ghost var t0, key, u, was := Data(s), Key6(ip0, cidr0), m.units, root.arr[..];
    ghost var fs: seq<Frame>, f := [], s;
    ghost var own := FootObjects(s);
    KeyWords6(ip, cidr);
    Depth6(cidr);
    InsertStarts(root, m, key, nhi, s);
    while cidr >= STRIDE
      invariant old(m.used) - Foot(s) <= m.used
      invariant AllSound(fs) && fresh(own - Foot(s)) && cidr <= LENGTH_V6 && HostZero6(ip, cidr)
      invariant InsertState(root, m, node, Key6(ip, cidr), level, nhi, fs, f, t0, key, u, was, own)
    {
      KeyWords6(ip, cidr);
      var stride := RShift(ip, LENGTH_V6 - STRIDE).iplo;
      ghost var mine := own;
      label before:
      node, fs, f, own := InsertPass(root, m, node, stride, level, Key6(ip, cidr), nhi, fs, f, t0, key, u, was, own);
      forall o | o in own && o !in Foot(s) ensures fresh(o) {
        if o !in mine { assert fresh@before(o); }
      }
      forall o | o in old(m.used) && o !in Foot(s) ensures o in m.used {
        assert o !in mine - Foot(s);
      }
      cidr := cidr - STRIDE;
      ip := LShift(ip, STRIDE);
      level := level + 1;
    }
    KeyWords6(ip, cidr);
    var pos := CountInlBitmap(RShift(ip, LENGTH_V6 - cidr).iplo, cidr);
    ghost var mine := own;
    label last:
    r, s', own := InsertFinal(root, m, node, pos, level, nhi, Key6(ip, cidr), fs, f, t0, key, u, was, own);
    forall o | o in own && o !in Foot(s) ensures fresh(o) {
      if o !in mine { assert fresh@last(o); }
    }
    forall o | o in old(m.used) && o !in Foot(s) ensures o in m.used {
      assert o !in mine - Foot(s);
    }
  }

  /** The way down. */
  method Descend(root: Ptr, m: Mm, t: array<Trace>, ip0: Ip6, cidr0: nat, ghost s: Shape, ghost key: Bits)
    returns (node: Ptr, ip: Ip6, cidr: nat, i: nat, ghost fs: seq<Frame>, ghost f: Shape)
    requires cidr0 <= LENGTH_V6 && HostZero6(ip0, cidr0) && key == Key6(ip0, cidr0)
    requires AllSound([]) && DeleteState(root, m, root, key, 0, t[..], [], s, key, Data(s), Foot(s))
    requires t !in m.Repr() + {root.arr} + Foot(s)
    modifies t
    ensures AllSound(fs) && cidr < STRIDE && cidr <= LENGTH_V6 && HostZero6(ip, cidr)
    ensures DeleteState(root, m, node, Key6(ip, cidr), i, t[..], fs, f, key, Data(s), Foot(s))
  {
    hide *;
    node, ip, cidr, i, fs, f := root, ip0, cidr0, 0, [], s;
    while cidr >= STRIDE
      invariant AllSound(fs) && cidr <= LENGTH_V6 && HostZero6(ip, cidr)
      invariant DeleteState(root, m, node, Key6(ip, cidr), i, t[..], fs, f, key, Data(s), Foot(s))
    {
      KeyWords6(ip, cidr);
      var stride := RShift(ip, LENGTH_V6 - STRIDE).iplo;
      node, fs, f := DescendPass(root, m, t, i, node, stride, Key6(ip, cidr), fs, f, key, Data(s), Foot(s));
      cidr := cidr - STRIDE;
      ip := LShift(ip, STRIDE);
      i := i + 1;
    }
  }

  /** bitmapv6_delete_prefix: removes exactly one key of the map; `calls` are the calls of destroy_nhi. */
  method DeletePrefix(root: Ptr, m: Mm, ip0: Ip6, cidr0: nat, notify: bool, ghost s: Shape)
    returns (r: int, calls: seq<Nhi>, ghost s': Shape)
    requires Owned(m, root, s, 0) && Packed(Data(s)) && cidr0 <= LENGTH_V6 && HostZero6(ip0, cidr0)
    requires Get(Data(s), Key6(ip0, cidr0)).Some?
    modifies m.Repr(), root.arr, Foot(s)
    ensures Owned(m, root, s', 0) && OthersKept(root, old(root.arr[..])) && fresh(Foot(s') - Foot(s))
    ensures Data(s') == DeleteT(Data(s), Key6(ip0, cidr0))
    ensures r == if Empty(Data(s')) then 1 else 0
    ensures Follows(old(m.units), m.units, Data(s), Data(s')) && old(m.used) - Foot(s) <= m.used
    ensures calls == if notify then [Get(Data(s), Key6(ip0, cidr0)).value] else []
  {
    hide *;
    FootAlloc(s);
    ReprAlloc(m);
    KeyWords6(ip0, cidr0);
    Depth6(cidr0);
    var t := new Trace[UPDATE_LEVEL_V6](_ => Trace(root, 0));
    ghost var key := Key6(ip0, cidr0);
    DeleteStarts(root, m, key, t[..], s);
    var node, ip, cidr, i;
    ghost var fs, f;
    node, ip, cidr, i, fs, f := Descend(root, m, t, ip0, cidr0, s, key);
    KeyWords6(ip, cidr);
    var pos := CountInlBitmap(RShift(ip, LENGTH_V6 - cidr).iplo, cidr);
    var need;
    label before:
    need, calls, s' := DeleteLast(root, m, t, i, node, pos, notify, Key6(ip, cidr), fs, f, key, Data(s), Foot(s));
    ghost var own' := FootObjects(s');
    forall o | o in own' && o !in Foot(s) ensures fresh(o) {
      assert fresh@before(o);
    }
    r := if need then 1 else 0;
  }

  // ----- search -----------------------------------------------------------------------

  /** What the loops of the searches need to know. */
  lemma {:induction false} SearchReady(fct: seq<Word>, ip: Ip6)
    requires Ready(fct)
    ensures |fct| == 32 && LENGTH_V6 < 6 * LEVEL_V6
    ensures STRIDE == 6 && LENGTH_V6 == 128 && |Addr6(ip)| == 128
    ensures RShift(ip, LENGTH_V6 - STRIDE).iplo == Val(Addr6(ip)[..STRIDE]) < 64
    ensures Addr6(LShift(ip, STRIDE)) == Shifted(Addr6(ip))
  {
    SearchWords6(ip);
  }

  /** bitmapv6_do_search: on the way down every match replaces the one before. */
  method DoSearch(fct: seq<Word>, root: Ptr, ip0: Ip6, ghost s: Shape, ghost w: nat) returns (r: Nhi)
    requires Ready(fct) && At(root, s) && Match(s, 0) && Packed(Data(s)) && Fits(Data(s), w) && w <= LENGTH_V6
    ensures r == NhiOf(Answer(Data(s), Addr6(ip0), w))
  {
    hide *;
    var n, ip: Ip6, longest: Option<Nhi> := root, ip0, None;
    ghost var f, d: nat, v: nat, best: Option<Hit> := s, 0, w, None;
    SearchReady(fct, ip);
    SeenRoot(root, s);
    SearchStarts(Data(s), Addr6(ip0), w);
    Noted(None, None, 0);
    while true
      invariant Seen(root, s, n, f, d)
      invariant Searching(Data(s), Addr6(ip0), w, Data(f), Addr6(ip), v, d, best)
      invariant longest == NhiOpt(best)
      decreases v
    {
      SearchReady(fct, ip);
      SearchUnfold(Data(s), Addr6(ip0), w, Data(f), Addr6(ip), v, d, best);
      SeenNode(root, s, n, f, d);
      var stride := RShift(ip, LENGTH_V6 - STRIDE).iplo;
      SeenHit(fct, root, s, n, f, d, stride, Addr6(ip));
      ghost var hit := NodeHit(Data(f), Addr6(ip), STRIDE);
      Noted(hit, best, 6 * d);
      var pos := TreeFunction(fct, n.arr[n.idx].internal, stride);
      if pos != -1 {
        longest := Some(NhiAt(n, pos));
      }
      if TestBit(n.arr[n.idx].external, stride) {
        SearchDown(Data(s), Addr6(ip0), w, Data(f), Addr6(ip), v, d, best);
        ghost var g := SeenChild(root, s, n, f, d, stride);
        n := NextChild(n, stride);
        ip := LShift(ip, STRIDE);
        f, v, best, d := g, v - STRIDE, OrElse(Deeper(hit, 6 * d), best), d + 1;
      } else {
        SearchStops(Data(s), Addr6(ip0), w, Data(f), Addr6(ip), v, d, best);
        best := OrElse(Deeper(hit, 6 * d), best);
        break;
      }
    }
    Noted(None, best, 0);
    r := if longest.None? then NULL else longest.value;
  }

  /** bitmapv6_do_search_lazy: down to the last node first, then back over the marks. */
  method DoSearchLazy(fct: seq<Word>, mark: array<LazyTravel>, root: Ptr, ip0: Ip6, ghost s: Shape, ghost w: nat)
    returns (r: Nhi)
    requires Ready(fct) && At(root, s) && Match(s, 0) && Packed(Data(s)) && Fits(Data(s), w) && w <= LENGTH_V6
    requires mark.Length == LEVEL_V6 && mark !in Foot(s) + {root.arr}
    modifies mark
    ensures r == NhiOf(Answer(Data(s), Addr6(ip0), w))
  {
    hide *;
    var n, ip: Ip6, travelDepth: nat := root, ip0, 0;
    ghost var a0, f, st: seq<Seat> := Addr6(ip0), s, [];
    SearchReady(fct, ip);
    LaneStarts(root, s, w, a0, mark[..]);
    LaneHere(fct, root, s, w, a0, n, Addr6(ip), mark[..], f, st);
    var stride := RShift(ip, LENGTH_V6 - STRIDE).iplo;
    while TestBit(n.arr[n.idx].external, stride)
      invariant Lane(root, s, w, a0, n, Addr6(ip), mark[..], f, st) && travelDepth == |st|
      invariant n.idx < n.arr.Length && n.arr[n.idx].external == f.ext
      invariant STRIDE == 6 && LENGTH_V6 == 128 && |a0| == 128 && stride == Val(Addr6(ip)[..STRIDE]) < 64
      decreases w - 6 * |st|
    {
      SearchReady(fct, ip);
      ghost var g := LaneDown(root, s, w, a0, n, Addr6(ip), mark[..], f, st, stride);
      ghost var mks := mark[..];
      mark[travelDepth] := LazyTravel(n, stride);
      assert mark[..] == mks[travelDepth := LazyTravel(n, stride)];
      travelDepth := travelDepth + 1;
      n := NextChild(n, stride);
      f, st := g, st + [Seat(f, Addr6(ip))];
      ip := LShift(ip, STRIDE);
      SearchReady(fct, ip);
      LaneHere(fct, root, s, w, a0, n, Addr6(ip), mark[..], f, st);
      stride := RShift(ip, LENGTH_V6 - STRIDE).iplo;
    }
    LaneHere(fct, root, s, w, a0, n, Addr6(ip), mark[..], f, st);
    LaneStops(root, s, w, a0, n, Addr6(ip), mark[..], f, st, stride);
    r := Backtrack(fct, mark[..], root, n, stride, travelDepth, s, f, Addr6(ip), st);
  }

  // ----- overlap and existence --------------------------------------------------------

  lemma {:induction false} MinIs()
    ensures forall x: nat, y: nat :: Min(x, y) == if x > y then y else x
  {
  }

  /** bitmapv6_detect_overlap_generic: the longest stored prefix of the address that is shorter than
      both cidr and bitsLimit. `nhi` stays as it was when there is none. */
  method DetectOverlapGeneric(root: Ptr, ip0: Ip6, cidr: nat, bitsLimit: nat, nhi0: Nhi, ghost s: Shape)
    returns (finalMask: nat, nhi: Nhi)
    requires At(root, s) && Match(s, 0) && Packed(Data(s)) && cidr <= LENGTH_V6
    ensures var h := Longest(Map(Data(s)), Addr6(ip0), Min(cidr, bitsLimit));
            finalMask == LenOf(h) && nhi == if finalMask != 0 then NhiOf(h) else nhi0
  {
    hide *;
    var n, ip: Ip6, mask: nat, step: nat, longest: Option<Nhi> := root, ip0, 0, 0, None;
    SearchWords6(ip);
    MinIs();
    finalMask := 0;
    var limit: int := if cidr > bitsLimit then bitsLimit else cidr;
    var orgLimit := limit;
    ghost var f, best: Option<Hit> := s, None;
    OverlapNone();
    SeenRoot(root, s);
    FootAlloc(s);
    OverlapStarts(Data(s), Addr6(ip0), orgLimit);
    while limit > 0
      invariant Seen(root, s, n, f, step) && orgLimit == limit + 6 * step
      invariant Overlapping(Data(s), Addr6(ip0), orgLimit, Data(f), Addr6(ip), limit, step, best)
      invariant finalMask == LenOf(best) && longest == NhiOpt(best)
    {
      SearchWords6(ip);
      MinIs();
      SeenNode(root, s, n, f, step);
      var stride := RShift(ip, LENGTH_V6 - STRIDE).iplo;
      mask, finalMask, longest := OverlapNode(root, n, stride, mask, limit, orgLimit, step, finalMask, longest, s,
                                              f, Addr6(ip), best);
      ghost var b := OrElse(Deeper(NodeHit(Data(f), Addr6(ip), Min(limit, STRIDE)), 6 * step), best);
      if TestBit(n.arr[n.idx].external, stride) {
        OverlapDown(Data(s), Addr6(ip0), orgLimit, Data(f), Addr6(ip), limit, step, best);
        f := SeenChild(root, s, n, f, step, stride);
        n := NextChild(n, stride);
        ip := LShift(ip, STRIDE);
      } else {
        OverlapStops(Data(s), Addr6(ip0), orgLimit, Data(f), Addr6(ip), limit, step, best);
        best := b;
        break;
      }
      best := b;
      limit := limit - STRIDE;
      step := step + 1;
    }
    if limit <= 0 {
      OverlapEnds(Data(s), Addr6(ip0), orgLimit, Data(f), Addr6(ip), limit, step, best);
    }
    OverlapHit(best);
    nhi := nhi0;
    if finalMask != 0 {
      nhi := longest.value;
    }
  }

  // ----- prefix exists ----------------------------------------------------------------

  /** bitmapv6_traverse_branch with prefix_exist_func. */
  method PrefixExist(root: Ptr, ip0: Ip6, cidr0: nat, ghost s: Shape) returns (r: int)
    requires At(root, s) && Match(s, 0) && Packed(Data(s)) && cidr0 <= LENGTH_V6 && HostZero6(ip0, cidr0)
    ensures r == if Get(Data(s), Key6(ip0, cidr0)).Some? then 1 else 0
  {
    hide *;
    var n, ip: Ip6, cidr: nat := root, ip0, cidr0;
    ghost var f, d: nat := s, 0;
    KeyWords6(ip, cidr);
    SeenRoot(root, s);
    while cidr >= STRIDE
      invariant Seen(root, s, n, f, d) && Packed(Data(f)) && cidr <= LENGTH_V6 && HostZero6(ip, cidr)
      invariant Get(Data(f), Key6(ip, cidr)) == Get(Data(s), Key6(ip0, cidr0))
    {
      SeenNode(root, s, n, f, d);
      KeyWords6(ip, cidr);
      KeyGoesOn(Data(f), Key6(ip, cidr));
      var stride := RShift(ip, LENGTH_V6 - STRIDE).iplo;
      if !TestBit(n.arr[n.idx].external, stride) {
        return 0;
      }
      f := SeenChild(root, s, n, f, d, stride);
      d := d + 1;
      n := NextChild(n, stride);
      cidr := cidr - STRIDE;
      ip := LShift(ip, STRIDE);
    }
    SeenNode(root, s, n, f, d);
    KeyWords6(ip, cidr);
    KeyEnds(Data(f), Key6(ip, cidr));
    var stride := RShift(ip, LENGTH_V6 - cidr).iplo;
    r := if TestBit(n.arr[n.idx].internal, CountInlBitmap(stride, cidr)) then 1 else 0;
  }
}
