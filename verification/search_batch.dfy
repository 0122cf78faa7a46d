/** Interleaved lazy search of several addresses (lib/bitmap_v4.c). */
module SearchBatch {
  import opened Words
  import opened Addresses
  import opened Trees
  import opened LongestMatch
  import opened NodeSearch
  import opened Memory
  import opened Shapes
  import opened Search
  import opened SearchV4

  const BATCH: nat := 32

  // ----- the word of finished lanes ---------------------------------------------------

  lemma {:induction false} OnesBit(n: nat, p: nat)
    ensures Bit(Pow2(n) - 1, p) == (p < n)
  {
    if p < n {
      ZeroBit(p);
      NotBit(n, 0, p);
    } else if Bit(Pow2(n) - 1, p) {
      BitBelow(Pow2(n) - 1, n, p);
    }
  }

  /** A word below 2^n other than 2^n - 1 has a zero among its low n bits. */
  lemma {:induction false} Unfinished(w: nat, n: nat) returns (j: nat)
    requires w < Pow2(n) && w != Pow2(n) - 1
    ensures j < n && !Bit(w, j)
  {
    if forall k: nat | k < n :: Bit(w, k) {
      forall p: nat ensures Bit(w, p) == Bit(Pow2(n) - 1, p) {
        OnesBit(n, p);
        if Bit(w, p) { BitBelow(w, n, p); }
      }
      SameBits(w, Pow2(n) - 1);
    }
    j :| j < n && !Bit(w, j);
  }

  lemma {:induction false} FinishOne(w: Word, n: nat, i: nat)
    requires w < Pow2(n) && i < n <= 64
    ensures SetBit(w, i) < Pow2(n)
  {
    forall p: nat | Bit(SetBit(w, i), p) ensures p < n {
      if p != i { BitBelow(w, n, p); }
    }
    BitsBelow(SetBit(w, i), n);
  }

  // ----- lanes ------------------------------------------------------------------------

  /** The tries a batch reads. */
  ghost function BatchFoot(roots: seq<Ptr>, ss: seq<Shape>): (r: set<object>)
    ensures forall i | 0 <= i < |roots| && i < |ss| :: {roots[i].arr} + Foot(ss[i]) <= r
  {
    set i, o | 0 <= i < |roots| && i < |ss| && o in {roots[i].arr} + Foot(ss[i]) :: o
  }

  lemma {:induction false} BatchAlloc(roots: seq<Ptr>, ss: seq<Shape>)
    ensures allocated(BatchFoot(roots, ss))
  {
    forall i | 0 <= i < |ss| ensures allocated(Foot(ss[i])) {
      FootAlloc(ss[i]);
    }
  }

  /** The values a lane holds in the arrays of the batch. */
  ghost predicate LaneOf(root: Ptr, s: Shape, w: nat, a0: Bits, n: Ptr, ip: U32, stride: nat, depth: nat,
                         mks: seq<LazyTravel>, f: Shape, st: seq<Seat>)
    reads root.arr, Foot(s)
  {
    && Lane(root, s, w, a0, n, Addr(ip), mks, f, st)
    && depth == |st| && stride == Val(Addr(ip)[..STRIDE]) && |mks| == LEVEL
  }

  ghost predicate Lanes(roots: seq<Ptr>, ss: seq<Shape>, w: nat, a0s: seq<Bits>, ns: seq<Ptr>, ips: seq<U32>,
                        strides: seq<nat>, depths: seq<nat>, rows: seq<seq<LazyTravel>>, fs: seq<Shape>,
                        sts: seq<seq<Seat>>)
    reads BatchFoot(roots, ss)
  {
    && |roots| == |ss| == |a0s| == |fs| == |sts| <= BATCH
    && |ns| == |ips| == |strides| == |depths| == |rows| == BATCH
    && forall i: nat | i < |roots| ::
         LaneOf(roots[i], ss[i], w, a0s[i], ns[i], ips[i], strides[i], depths[i], rows[i], fs[i], sts[i])
  }

  /** lazy_mark_batch[i]. */
  function RowAt(mark: array2<LazyTravel>, i: nat): (r: seq<LazyTravel>)
    requires i < mark.Length0
    reads mark
    ensures |r| == mark.Length1
  {
    seq(mark.Length1, k requires 0 <= k < mark.Length1 reads mark => mark[i, k])
  }

  ghost function Rows(mark: array2<LazyTravel>): (r: seq<seq<LazyTravel>>)
    reads mark
    ensures |r| == mark.Length0
    ensures forall i | 0 <= i < mark.Length0 :: r[i] == RowAt(mark, i)
  {
    seq(mark.Length0, i requires 0 <= i < mark.Length0 reads mark => RowAt(mark, i))
  }

  lemma {:induction false} LanesAt(roots: seq<Ptr>, ss: seq<Shape>, w: nat, a0s: seq<Bits>, ns: seq<Ptr>,
                                   ips: seq<U32>,
                                   strides: seq<nat>, depths: seq<nat>, rows: seq<seq<LazyTravel>>, fs: seq<Shape>,
                                   sts: seq<seq<Seat>>, i: nat)
    requires Lanes(roots, ss, w, a0s, ns, ips, strides, depths, rows, fs, sts) && i < |roots|
    ensures LaneOf(roots[i], ss[i], w, a0s[i], ns[i], ips[i], strides[i], depths[i], rows[i], fs[i], sts[i])
    ensures |roots| == |ss| == |a0s| == |fs| == |sts| && i < |ips| && |rows[i]| == LEVEL && depths[i] == |sts[i]|
        && 6 * |sts[i]| <= w < 6 * LEVEL
    ensures Lane(roots[i], ss[i], w, a0s[i], ns[i], Addr(ips[i]), rows[i], fs[i], sts[i])
    ensures strides[i] == Val(Addr(ips[i])[..STRIDE])
    ensures {roots[i].arr} + Foot(ss[i]) <= BatchFoot(roots, ss)
  {
    hide Seen, Marks, Searching;
  }

  /** A change of one lane. */
  lemma {:induction false} LanesUpdate(roots: seq<Ptr>, ss: seq<Shape>, w: nat, a0s: seq<Bits>, ns: seq<Ptr>,
                                       ips: seq<U32>,
                                       strides: seq<nat>, depths: seq<nat>, rows: seq<seq<LazyTravel>>, fs: seq<Shape>,
                                       sts: seq<seq<Seat>>, i: nat, n: Ptr, ip: U32, stride: nat, depth: nat,
                                       row: seq<LazyTravel>, f: Shape, st: seq<Seat>)
    requires Lanes(roots, ss, w, a0s, ns, ips, strides, depths, rows, fs, sts) && i < |roots|
    requires LaneOf(roots[i], ss[i], w, a0s[i], n, ip, stride, depth, row, f, st)
    ensures Lanes(roots, ss, w, a0s, ns[i := n], ips[i := ip], strides[i := stride], depths[i := depth],
                  rows[i := row],
                  fs[i := f], sts[i := st])
  {
  }

  // ----- stage 1 ----------------------------------------------------------------------

  /** In pass p, before lane i: a finished lane has no way down, any other has gone down once a pass. */
  ghost predicate Passing(endcnt: nat, cnt: nat, p: nat, i: nat, strides: seq<nat>, fs: seq<Shape>,
                          sts: seq<seq<Seat>>)
  {
    && |fs| == |sts| == cnt <= |strides| && endcnt < Pow2(cnt)
    && forall j: nat | j < cnt :: LanePass(endcnt, p, i, j, strides, fs, sts)
  }

  ghost predicate LanePass(endcnt: nat, p: nat, i: nat, j: nat, strides: seq<nat>, fs: seq<Shape>,
                           sts: seq<seq<Seat>>)
    requires j < |fs| && j < |sts| && j < |strides|
  {
    if Bit(endcnt, j) then !Bit(fs[j].ext, strides[j]) else |sts[j]| == if j < i then p + 1 else p
  }

  lemma {:induction false} PassDown(endcnt: nat, cnt: nat, p: nat, i: nat, strides: seq<nat>, fs: seq<Shape>,
                                    sts: seq<seq<Seat>>,
                                    stride: nat, f: Shape, st: seq<Seat>)
    requires Passing(endcnt, cnt, p, i, strides, fs, sts) && i < cnt
    requires Bit(fs[i].ext, strides[i]) && |st| == |sts[i]| + 1
    ensures Passing(endcnt, cnt, p, i + 1, strides[i := stride], fs[i := f], sts[i := st])
  {
    assert LanePass(endcnt, p, i, i, strides, fs, sts);
    var i', us, gs, ts := i + 1, strides[i := stride], fs[i := f], sts[i := st];
    forall j: nat | j < cnt ensures LanePass(endcnt, p, i', j, us, gs, ts) {
      assert LanePass(endcnt, p, i, j, strides, fs, sts);
    }
  }

  lemma {:induction false} PassStop(endcnt: Word, cnt: nat, p: nat, i: nat, strides: seq<nat>, fs: seq<Shape>,
                                    sts: seq<seq<Seat>>)
    requires Passing(endcnt, cnt, p, i, strides, fs, sts) && i < cnt <= 64
    requires !Bit(fs[i].ext, strides[i])
    ensures Passing(SetBit(endcnt, i), cnt, p, i + 1, strides, fs, sts)
  {
    FinishOne(endcnt, cnt, i);
    var i', e := i + 1, SetBit(endcnt, i);
    forall j: nat | j < cnt ensures LanePass(e, p, i', j, strides, fs, sts) {
      assert LanePass(endcnt, p, i, j, strides, fs, sts);
    }
  }

  lemma {:induction false} PassNext(endcnt: nat, cnt: nat, p: nat, strides: seq<nat>, fs: seq<Shape>,
                                    sts: seq<seq<Seat>>)
    requires Passing(endcnt, cnt, p, cnt, strides, fs, sts)
    ensures Passing(endcnt, cnt, p + 1, 0, strides, fs, sts)
  {
    var p' := p + 1;
    forall j: nat | j < cnt ensures LanePass(endcnt, p', 0, j, strides, fs, sts) {
      assert LanePass(endcnt, p, cnt, j, strides, fs, sts);
    }
  }

  lemma {:induction false} PassAll(endcnt: nat, cnt: nat, p: nat, strides: seq<nat>, fs: seq<Shape>,
                                   sts: seq<seq<Seat>>, j: nat)
    requires Passing(endcnt, cnt, p, 0, strides, fs, sts) && endcnt == Pow2(cnt) - 1 && j < cnt
    ensures !Bit(fs[j].ext, strides[j])
  {
    OnesBit(cnt, j);
    assert LanePass(endcnt, p, 0, j, strides, fs, sts);
  }

  /** The number of passes is bounded by the depth of the tries. */
  lemma {:induction false} PassBound(endcnt: nat, cnt: nat, p: nat, roots: seq<Ptr>, ss: seq<Shape>, w: nat,
                                     a0s: seq<Bits>,
                                     ns: seq<Ptr>, ips: seq<U32>, strides: seq<nat>, depths: seq<nat>,
                                     rows: seq<seq<LazyTravel>>, fs: seq<Shape>, sts: seq<seq<Seat>>)
    requires Lanes(roots, ss, w, a0s, ns, ips, strides, depths, rows, fs, sts) && cnt == |roots|
    requires Passing(endcnt, cnt, p, 0, strides, fs, sts) && endcnt != Pow2(cnt) - 1
    ensures p < LEVEL
  {
    var j := Unfinished(endcnt, cnt);
    assert LanePass(endcnt, p, 0, j, strides, fs, sts);
    LanesAt(roots, ss, w, a0s, ns, ips, strides, depths, rows, fs, sts, j);
  }

  /** What a lane finds when its turn comes. */
  lemma {:induction false} LaneTurn(fct: seq<Word>, root: Ptr, s: Shape, w: nat, a0: Bits, n: Ptr, ip: U32,
                                    stride: nat,
                                    depth: nat, mks: seq<LazyTravel>, f: Shape, st: seq<Seat>) returns (g: Shape)
    requires Ready(fct) && LaneOf(root, s, w, a0, n, ip, stride, depth, mks, f, st)
    ensures n.idx < n.arr.Length && n.arr[n.idx].external == f.ext && stride < 64 && STRIDE == 6 && LENGTH == 32
    ensures Bit(f.ext, stride) ==>
              && n.arr[n.idx].block != null && Rank(n.arr[n.idx].external, stride) >= 1 && depth < |mks| == LEVEL
              && var ip' := Shl32(ip, STRIDE);
                 LaneOf(root, s, w, a0, NextChild(n, stride), ip', Shr32(ip', LENGTH - STRIDE), depth + 1,
                        mks[depth := LazyTravel(n, stride)], g, st + [Seat(f, Addr(ip))])
  {
    SearchWords(fct, ip);
    LaneHere(fct, root, s, w, a0, n, Addr(ip), mks, f, st);
    if Bit(f.ext, stride) {
      g := LaneDown(root, s, w, a0, n, Addr(ip), mks, f, st, stride);
      SearchWords(fct, Shl32(ip, STRIDE));
    } else {
      g := f;
    }
  }

  /** The arrays of a batch are not part of the tries, and are different from each other. */
  ghost predicate Apart(foot: set<object>, mark: array2<LazyTravel>, n: array<Ptr>, ip: array<U32>,
                        stride: array<nat>,
                        depth: array<nat>)
  {
    && {mark, n, ip, stride, depth} !! foot && stride != depth
    && n.Length == ip.Length == stride.Length == depth.Length == mark.Length0 == BATCH && mark.Length1 == LEVEL
  }

  method SetMark(mark: array2<LazyTravel>, i: nat, k: nat, x: LazyTravel)
    requires i < mark.Length0 && k < mark.Length1
    modifies mark
    ensures Rows(mark) == old(Rows(mark))[i := old(Rows(mark)[i])[k := x]]
  {
    ghost var rows := Rows(mark);
    mark[i, k] := x;
    forall j | 0 <= j < mark.Length0 ensures Rows(mark)[j] == rows[i := rows[i][k := x]][j] {
      assert |Rows(mark)[j]| == |rows[j]|;
      forall l | 0 <= l < mark.Length1 ensures Rows(mark)[j][l] == rows[i := rows[i][k := x]][j][l] {
      }
    }
  }

  lemma {:induction false} Sizes(foot: set<object>, mark: array2<LazyTravel>, n: array<Ptr>, ip: array<U32>,
                                 stride: array<nat>,
                                 depth: array<nat>, i: nat)
    requires Apart(foot, mark, n, ip, stride, depth) && i < BATCH
    ensures i < n.Length && i < ip.Length && i < stride.Length && i < depth.Length && i < mark.Length0
    ensures mark.Length1 == LEVEL && |Rows(mark)| == mark.Length0
    ensures stride != depth && {mark, n, ip, stride, depth} !! foot
  {
  }

  /** One turn of lane i in stage 1. */
  method LaneStep(fct: seq<Word>, mark: array2<LazyTravel>, n: array<Ptr>, ip: array<U32>, stride: array<nat>,
                  depth: array<nat>, cnt: nat, i: nat, endcnt0: Word, ghost p: nat,
                  ghost roots: seq<Ptr>, ghost ss: seq<Shape>, ghost w: nat, ghost a0s: seq<Bits>,
                  ghost fs: seq<Shape>, ghost sts: seq<seq<Seat>>)
    returns (endcnt: Word, ghost gs: seq<Shape>, ghost ts: seq<seq<Seat>>)
    requires Ready(fct) && i < cnt == |roots| && cnt <= BATCH
    requires Apart(BatchFoot(roots, ss), mark, n, ip, stride, depth)
    requires Lanes(roots, ss, w, a0s, n[..], ip[..], stride[..], depth[..], Rows(mark), fs, sts)
    requires Passing(endcnt0, cnt, p, i, stride[..], fs, sts)
    modifies mark, n, ip, stride, depth
    ensures Lanes(roots, ss, w, a0s, n[..], ip[..], stride[..], depth[..], Rows(mark), gs, ts)
    ensures Passing(endcnt, cnt, p, i + 1, stride[..], gs, ts)
  {
    hide *;
    Small();
    Sizes(BatchFoot(roots, ss), mark, n, ip, stride, depth, i);
    LanesAt(roots, ss, w, a0s, n[..], ip[..], stride[..], depth[..], Rows(mark), fs, sts, i);
    ghost var g := LaneTurn(fct, roots[i], ss[i], w, a0s[i], n[i], ip[i], stride[i], depth[i], Rows(mark)[i], fs[i],
                            sts[i]);
    endcnt, gs, ts := endcnt0, fs, sts;
    if TestBit(n[i].arr[n[i].idx].external, stride[i]) {
      ghost var ns, ips, us, ds, rows := n[..], ip[..], stride[..], depth[..], Rows(mark);
      ghost var n', ip' := NextChild(n[i], stride[i]), Shl32(ip[i], STRIDE);
      ghost var u', row' := Shr32(ip', LENGTH - STRIDE), rows[i][ds[i] := LazyTravel(n[i], stride[i])];
      gs, ts := fs[i := g], sts[i := sts[i] + [Seat(fs[i], Addr(ip[i]))]];
      LanesUpdate(roots, ss, w, a0s, ns, ips, us, ds, rows, fs, sts, i, n', ip', u', ds[i] + 1, row', g, ts[i]);
      PassDown(endcnt, cnt, p, i, us, fs, sts, u', g, ts[i]);
      BatchAlloc(roots, ss);
      SetMark(mark, i, depth[i], LazyTravel(n[i], stride[i]));
      depth[i] := depth[i] + 1;
      n[i] := NextChild(n[i], stride[i]);
      ip[i] := Shl32(ip[i], STRIDE);
      stride[i] := Shr32(ip[i], LENGTH - STRIDE);
      assert n[..] == ns[i := n'] && ip[..] == ips[i := ip'] && stride[..] == us[i := u'];
      assert depth[..] == ds[i := ds[i] + 1];
    } else {
      endcnt := SetBit(endcnt, i);
      PassStop(endcnt0, cnt, p, i, stride[..], fs, sts);
    }
  }

  lemma {:induction false} Small()
    ensures BATCH == 32 && STRIDE == 6 && LENGTH == 32 && LEVEL == 6
  {
  }

  /** One pass over all lanes. */
  method OnePass(fct: seq<Word>, mark: array2<LazyTravel>, n: array<Ptr>, ip: array<U32>, stride: array<nat>,
                 depth: array<nat>, cnt: nat, endcnt0: Word, ghost p: nat,
                 ghost roots: seq<Ptr>, ghost ss: seq<Shape>, ghost w: nat, ghost a0s: seq<Bits>,
                 ghost fs0: seq<Shape>, ghost sts0: seq<seq<Seat>>)
    returns (endcnt: Word, ghost fs: seq<Shape>, ghost sts: seq<seq<Seat>>)
    requires Ready(fct) && cnt == |roots| && cnt <= BATCH
    requires Apart(BatchFoot(roots, ss), mark, n, ip, stride, depth)
    requires Lanes(roots, ss, w, a0s, n[..], ip[..], stride[..], depth[..], Rows(mark), fs0, sts0)
    requires Passing(endcnt0, cnt, p, 0, stride[..], fs0, sts0)
    modifies mark, n, ip, stride, depth
    ensures Lanes(roots, ss, w, a0s, n[..], ip[..], stride[..], depth[..], Rows(mark), fs, sts)
    ensures Passing(endcnt, cnt, p, cnt, stride[..], fs, sts)
  {
    hide *;
    endcnt, fs, sts := endcnt0, fs0, sts0;
    for i := 0 to cnt
      invariant Lanes(roots, ss, w, a0s, n[..], ip[..], stride[..], depth[..], Rows(mark), fs, sts)
      invariant Passing(endcnt, cnt, p, i, stride[..], fs, sts)
    {
      endcnt, fs, sts := LaneStep(fct, mark, n, ip, stride, depth, cnt, i, endcnt, p, roots, ss, w, a0s, fs, sts);
    }
  }

  /** Passes until every lane has reached its last node. */
  method Stage1(fct: seq<Word>, mark: array2<LazyTravel>, n: array<Ptr>, ip: array<U32>, stride: array<nat>,
                depth: array<nat>, cnt: nat,
                ghost roots: seq<Ptr>, ghost ss: seq<Shape>, ghost w: nat, ghost a0s: seq<Bits>,
                ghost fs0: seq<Shape>, ghost sts0: seq<seq<Seat>>)
    returns (ghost fs: seq<Shape>, ghost sts: seq<seq<Seat>>)
    requires Ready(fct) && cnt == |roots| && cnt <= BATCH
    requires Apart(BatchFoot(roots, ss), mark, n, ip, stride, depth)
    requires Lanes(roots, ss, w, a0s, n[..], ip[..], stride[..], depth[..], Rows(mark), fs0, sts0)
    requires Passing(0, cnt, 0, 0, stride[..], fs0, sts0)
    modifies mark, n, ip, stride, depth
    ensures Lanes(roots, ss, w, a0s, n[..], ip[..], stride[..], depth[..], Rows(mark), fs, sts)
    ensures |fs| == cnt && forall j | 0 <= j < cnt :: !Bit(fs[j].ext, stride[..][j])
  {
    hide *;
    Small();
    fs, sts := fs0, sts0;
    var endcnt: Word := 0;
    ghost var p: nat := 0;
    while endcnt != Pow2(cnt) - 1
      invariant Lanes(roots, ss, w, a0s, n[..], ip[..], stride[..], depth[..], Rows(mark), fs, sts)
      invariant Passing(endcnt, cnt, p, 0, stride[..], fs, sts) && p <= LEVEL
      decreases LEVEL - p
    {
      PassBound(endcnt, cnt, p, roots, ss, w, a0s, n[..], ip[..], stride[..], depth[..], Rows(mark), fs, sts);
      endcnt, fs, sts := OnePass(fct, mark, n, ip, stride, depth, cnt, endcnt, p, roots, ss, w, a0s, fs, sts);
      PassNext(endcnt, cnt, p, stride[..], fs, sts);
      p := p + 1;
    }
    PassEnds(endcnt, cnt, p, stride[..], fs, sts);
  }

  lemma {:induction false} PassEnds(endcnt: nat, cnt: nat, p: nat, strides: seq<nat>, fs: seq<Shape>,
                                    sts: seq<seq<Seat>>)
    requires Passing(endcnt, cnt, p, 0, strides, fs, sts) && endcnt == Pow2(cnt) - 1
    ensures |fs| == cnt <= |strides| && forall j | 0 <= j < cnt :: !Bit(fs[j].ext, strides[j])
  {
    forall j | 0 <= j < cnt ensures !Bit(fs[j].ext, strides[j]) {
      PassAll(endcnt, cnt, p, strides, fs, sts, j);
    }
  }

  // ----- the whole batch --------------------------------------------------------------

  /** Every lane is given a trie of width w. */
  ghost predicate Tries(roots: seq<Ptr>, ss: seq<Shape>, w: nat)
    reads BatchFoot(roots, ss)
  {
    |roots| == |ss| && forall i: nat | i < |ss| :: TrieAt(roots[i], ss[i], w)
  }

  ghost predicate TrieAt(root: Ptr, s: Shape, w: nat)
    reads root.arr, Foot(s)
  {
    At(root, s) && Match(s, 0) && Packed(Data(s)) && Fits(Data(s), w)
  }

  function Addrs(ips: seq<U32>, cnt: nat): (r: seq<Bits>)
    requires cnt <= |ips|
    ensures |r| == cnt && forall i | 0 <= i < cnt :: r[i] == Addr(ips[i])
  {
    seq(cnt, i requires 0 <= i < cnt => Addr(ips[i]))
  }

  lemma {:induction false} LanesStart(roots: seq<Ptr>, ss: seq<Shape>, w: nat, ns: seq<Ptr>, ips: seq<U32>,
                                      strides: seq<nat>,
                                      depths: seq<nat>, rows: seq<seq<LazyTravel>>, cnt: nat, sts: seq<seq<Seat>>)
    requires Tries(roots, ss, w) && w <= LENGTH && cnt == |ss| <= BATCH && sts == seq(cnt, _ => [])
    requires |ns| == |ips| == |strides| == |depths| == |rows| == BATCH && roots == ns[..cnt]
    requires forall i | 0 <= i < cnt :: strides[i] == Shr32(ips[i], LENGTH - STRIDE) && depths[i] == 0
    requires forall i | 0 <= i < BATCH :: |rows[i]| == LEVEL
    ensures Lanes(roots, ss, w, Addrs(ips, cnt), ns, ips, strides, depths, rows, ss, sts)
    ensures Passing(0, cnt, 0, 0, strides, ss, sts)
  {
    hide Matches, Packs, Fits, Lane, At;
    forall i: nat | i < cnt
      ensures LaneOf(roots[i], ss[i], w, Addrs(ips, cnt)[i], ns[i], ips[i], strides[i], depths[i], rows[i], ss[i],
                     sts[i])
    {
      assert TrieAt(roots[i], ss[i], w);
      LaneStarts(roots[i], ss[i], w, Addr(ips[i]), rows[i]);
      SearchStep(ips[i]);
    }
    forall j: nat | j < cnt ensures LanePass(0, 0, 0, j, strides, ss, sts) {
      ZeroBit(j);
    }
  }

  /** What a finished lane knows. */
  lemma {:induction false} LaneEnds(fct: seq<Word>, root: Ptr, s: Shape, w: nat, a0: Bits, n: Ptr, ip: U32,
                                    stride: nat,
                                    depth: nat, mks: seq<LazyTravel>, f: Shape, st: seq<Seat>)
    requires Ready(fct) && LaneOf(root, s, w, a0, n, ip, stride, depth, mks, f, st) && !Bit(f.ext, stride)
    ensures Seen(root, s, n, f, depth) && |Addr(ip)| == LENGTH && stride == Val(Addr(ip)[..STRIDE]) < 64
    ensures Marks(root, s, mks, st) && depth == |st| && AllSeats(st) && Packed(Data(f)) && STRIDE <= |Addr(ip)|
    ensures Packed(Data(s)) && w <= |a0|
    ensures Answer(Data(s), a0, w) == OrElse(Deeper(NodeHit(Data(f), Addr(ip), STRIDE), 6 * depth), Back(st))
  {
    SearchWords(fct, ip);
    LaneHere(fct, root, s, w, a0, n, Addr(ip), mks, f, st);
    LaneStops(root, s, w, a0, n, Addr(ip), mks, f, st, stride);
  }

  /** The answer of one trie, once it is known to be one. */
  ghost function Found(s: Shape, a: Bits, w: nat): Nhi {
    if Packed(Data(s)) && w <= |a| then NhiOf(Answer(Data(s), a, w)) else NULL
  }

  /** Stage 2: every lane answers from its last node or from its own marks. */
  method Stage2(fct: seq<Word>, mark: array2<LazyTravel>, n: array<Ptr>, ret: array<Nhi>, stride: array<nat>,
                depth: array<nat>, cnt: nat, ghost ips: seq<U32>,
                ghost roots: seq<Ptr>, ghost ss: seq<Shape>, ghost w: nat, ghost a0s: seq<Bits>,
                ghost fs: seq<Shape>, ghost sts: seq<seq<Seat>>)
    requires Ready(fct) && cnt == |roots| && |roots| == |ss| == |a0s| && cnt <= BATCH <= ret.Length
    requires n.Length == stride.Length == depth.Length == mark.Length0 == BATCH && ret !in BatchFoot(roots, ss)
    requires Lanes(roots, ss, w, a0s, n[..], ips, stride[..], depth[..], Rows(mark), fs, sts)
    requires |fs| == cnt && forall j | 0 <= j < cnt :: !Bit(fs[j].ext, stride[..][j])
    modifies ret
    ensures forall i | 0 <= i < cnt :: ret[i] == Found(ss[i], a0s[i], w)
    ensures ret[cnt..] == old(ret[cnt..])
  {
    hide *;
    BatchAlloc(roots, ss);
    for i := 0 to cnt
      invariant Lanes(roots, ss, w, a0s, n[..], ips, stride[..], depth[..], Rows(mark), fs, sts)
      invariant forall j | 0 <= j < i :: ret[j] == Found(ss[j], a0s[j], w)
      invariant ret[cnt..] == old(ret[cnt..])
    {
      ghost var ns, us, ds, rows := n[..], stride[..], depth[..], Rows(mark);
      LanesAt(roots, ss, w, a0s, ns, ips, us, ds, rows, fs, sts, i);
      LaneEnds(fct, roots[i], ss[i], w, a0s[i], ns[i], ips[i], us[i], ds[i], rows[i], fs[i], sts[i]);
      var r := Backtrack(fct, RowAt(mark, i), roots[i], n[i], stride[i], depth[i], ss[i], fs[i], Addr(ips[i]),
                         sts[i]);
      FoundIs(ss[i], a0s[i], w, r);
      ret[i] := r;
    }
  }

  lemma {:induction false} FoundIs(s: Shape, a: Bits, w: nat, r: Nhi)
    requires Packed(Data(s)) && w <= |a| && r == NhiOf(Answer(Data(s), a, w))
    ensures r == Found(s, a, w)
  {
  }

  /** bitmap_do_search_lazy_batch: lane i gets what bitmap_do_search_lazy would find for it. */
  method DoSearchLazyBatch(fct: seq<Word>, mark: array2<LazyTravel>, n: array<Ptr>, ip: array<U32>, ret: array<Nhi>,
                           cnt: nat, ghost ss: seq<Shape>, ghost w: nat)
    requires Ready(fct) && cnt == |ss| && cnt <= BATCH && w <= LENGTH
    requires n.Length == ip.Length == mark.Length0 == BATCH <= ret.Length && mark.Length1 == LEVEL
    requires Tries(n[..cnt], ss, w) && {mark, n, ip, ret} !! BatchFoot(n[..cnt], ss)
    modifies mark, n, ip, ret
    ensures forall i | 0 <= i < cnt :: ret[i] == Found(ss[i], Addr(old(ip[i])), w)
    ensures ret[cnt..] == old(ret[cnt..])
  {
    hide Lanes, Passing, Found, Addr, Shr32, BatchFoot, TrieAt, Tries, Ready, LEVEL;
    ghost var roots, ips := n[..cnt], ip[..];
    BatchAlloc(roots, ss);
    var stride := new nat[BATCH](_ => 0);
    var depth := new nat[BATCH](_ => 0);
    StrideStage(ip, stride, cnt);
    ghost var a0s, sts: seq<seq<Seat>> := Addrs(ips, cnt), seq(cnt, _ => []);
    LanesStart(roots, ss, w, n[..], ips, stride[..], depth[..], Rows(mark), cnt, sts);
    ghost var fs;
    fs, sts := Stage1(fct, mark, n, ip, stride, depth, cnt, roots, ss, w, a0s, ss, sts);
    Stage2(fct, mark, n, ret, stride, depth, cnt, ip[..], roots, ss, w, a0s, fs, sts);
  }

  /** Stage 0. */
  method StrideStage(ip: array<U32>, stride: array<nat>, cnt: nat)
    requires cnt <= ip.Length && cnt <= stride.Length
    modifies stride
    ensures forall i | 0 <= i < cnt :: stride[i] == Shr32(ip[i], LENGTH - STRIDE)
  {
    for i := 0 to cnt
      invariant forall j | 0 <= j < i :: stride[j] == Shr32(ip[j], LENGTH - STRIDE)
    {
      stride[i] := Shr32(ip[i], LENGTH - STRIDE);
    }
  }
}
