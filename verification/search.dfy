/** Searching a bitmap trie in memory: what the loops of lib/bitmap_v4.c and lib/bitmap_v6.c do at
    each node, with the address as bits. */
module Search {
  import opened Words
  import opened Addresses
  import opened Trees
  import opened LongestMatch
  import opened NodeSearch
  import opened Memory
  import opened Shapes
  import opened Spine

  // ----- reading a node ---------------------------------------------------------------

  /** n points to the subtrie f, at depth d, of the trie s at `root`. */
  ghost predicate Seen(root: Ptr, s: Shape, n: Ptr, f: Shape, d: nat)
    reads root.arr, Foot(s)
  {
    Sees(root, s, n, f, d) == true
  }

  ghost predicate Sees(root: Ptr, s: Shape, n: Ptr, f: Shape, d: nat)
    reads root.arr, Foot(s)
  {
    && Foot(f) <= Foot(s) && n.arr in Foot(s) + {root.arr}
    && At(n, f) && Match(f, d) && Packed(Data(f))
  }

  /** next_child: the node behind a set external bit. */
  function NextChild(n: Ptr, pos: nat): Ptr
    requires n.idx < n.arr.Length && n.arr[n.idx].block != null && Rank(n.arr[n.idx].external, pos) >= 1
    reads n.arr
  {
    Ptr(n.arr[n.idx].block.kids, CountOnes(n.arr[n.idx].external, pos))
  }

  /** *pointer_to_nhi. */
  function NhiAt(n: Ptr, pos: nat): Nhi
    requires n.idx < n.arr.Length && n.arr[n.idx].block != null
    requires 1 <= Rank(n.arr[n.idx].internal, pos) <= n.arr[n.idx].block.rules.Length
    reads n.arr, if n.idx < n.arr.Length && n.arr[n.idx].block != null then {n.arr[n.idx].block.rules} else {}
  {
    n.arr[n.idx].block.rules[CountOnes(n.arr[n.idx].internal, pos)]
  }

  lemma {:induction false} SeenRoot(root: Ptr, s: Shape)
    requires At(root, s) && Match(s, 0) && Packed(Data(s))
    ensures Seen(root, s, root, s, 0)
  {
  }

  lemma {:induction false} SeenNode(root: Ptr, s: Shape, n: Ptr, f: Shape, d: nat)
    requires Seen(root, s, n, f, d)
    ensures n.idx < n.arr.Length && n.arr[n.idx] == RootOf(f) && Packed(Data(f))
    ensures n.arr[n.idx].external == f.ext == Data(f).ext && n.arr[n.idx].internal == f.inl == Data(f).inl
    ensures n.arr in Foot(s) + {root.arr}
  {
  }

  lemma {:induction false} SeenChild(root: Ptr, s: Shape, n: Ptr, f: Shape, d: nat, p: nat) returns (g: Shape)
    requires Seen(root, s, n, f, d) && Bit(f.ext, p)
    ensures n.idx < n.arr.Length && n.arr[n.idx].block != null && Rank(n.arr[n.idx].external, p) >= 1
    ensures Seen(root, s, NextChild(n, p), g, d + 1)
    ensures Packed(Data(f)) && Data(g) == ChildAt(Data(f), p)
  {
    Dig(f, p, d);
    RankBounds(f.ext, p);
    g := f.kids[Hole(Frame(f, p))];
  }

  lemma {:induction false} SeenRule(root: Ptr, s: Shape, n: Ptr, f: Shape, d: nat, p: nat)
    requires Seen(root, s, n, f, d) && Bit(f.inl, p)
    ensures n.idx < n.arr.Length && n.arr[n.idx].block != null
    ensures 1 <= Rank(n.arr[n.idx].internal, p) <= n.arr[n.idx].block.rules.Length
    ensures Packed(Data(f)) && NhiAt(n, p) == RuleAt(Data(f), p)
  {
    RankBounds(f.inl, p);
  }

  /** What tree_function and pointer_to_nhi find in one node. */
  lemma {:induction false} SeenHit(fct: seq<Word>, root: Ptr, s: Shape, n: Ptr, f: Shape, d: nat, stride: nat,
                                   a: Bits)
    requires Ready(fct) && Seen(root, s, n, f, d) && STRIDE <= |a| && stride == Val(a[..STRIDE]) < 64
    ensures n.idx < n.arr.Length && Packed(Data(f)) && |fct| == 32
    ensures var pos, h := TreeFunction(fct, n.arr[n.idx].internal, stride), NodeHit(Data(f), a, STRIDE);
            if h.None? then pos == -1
            else pos >= 0 && n.arr[n.idx].block != null
                 && 1 <= Rank(n.arr[n.idx].internal, pos) <= n.arr[n.idx].block.rules.Length
                 && NhiAt(n, pos) == h.value.nhi
  {
    SeenNode(root, s, n, f, d);
    TreeFunctionFinds(fct, f.inl, stride, a);
    if NodeHit(Data(f), a, STRIDE).Some? {
      SeenRule(root, s, n, f, d, TreeFunction(fct, f.inl, stride));
    }
  }

  // ----- the state of a search --------------------------------------------------------

  /** The answer of the trie t0 for a0 is that of its subtrie t, at depth d, for a, or else `best`. */
  ghost predicate Searching(t0: Tree, a0: Bits, w0: nat, t: Tree, a: Bits, w: nat, d: nat, best: Option<Hit>)
    requires Packed(t0) && w0 <= |a0|
  {
    && Packed(t) && Fits(t, w) && w <= |a| && STRIDE <= |a|
    && Answer(t0, a0, w0) == OrElse(Deeper(Answer(t, a, w), 6 * d), best)
  }

  lemma {:induction false} SearchStarts(t: Tree, a: Bits, w: nat)
    requires Packed(t) && Fits(t, w) && w <= |a| && STRIDE <= |a|
    ensures Searching(t, a, w, t, a, w, 0, None)
  {
  }

  lemma {:induction false} SearchDown(t0: Tree, a0: Bits, w0: nat, t: Tree, a: Bits, w: nat, d: nat,
                                      best: Option<Hit>)
    requires Packed(t0) && w0 <= |a0| && Searching(t0, a0, w0, t, a, w, d, best) && Bit(t.ext, Val(a[..STRIDE]))
    ensures w >= STRIDE
    ensures Searching(t0, a0, w0, ChildAt(t, Val(a[..STRIDE])), Shifted(a), w - STRIDE, d + 1,
                      OrElse(Deeper(NodeHit(t, a, STRIDE), 6 * d), best))
  {
    hide *;
    SearchUnfold(t0, a0, w0, t, a, w, d, best);
    var h := NodeHit(t, a, STRIDE);
    AnswerDescend(t, a, w);
    AnswerTwice(Answer(ChildAt(t, Val(a[..STRIDE])), Shifted(a), w - STRIDE), h, best, d);
    SearchFold(t0, a0, w0, ChildAt(t, Val(a[..STRIDE])), Shifted(a), w - STRIDE, d + 1, OrElse(Deeper(h, 6 * d),
          best));
  }

  lemma {:induction false} SearchUnfold(t0: Tree, a0: Bits, w0: nat, t: Tree, a: Bits, w: nat, d: nat,
                                        best: Option<Hit>)
    requires Packed(t0) && w0 <= |a0| && Searching(t0, a0, w0, t, a, w, d, best)
    ensures Packed(t) && Fits(t, w) && w <= |a| && STRIDE == 6 <= |a| && |Shifted(a)| == |a|
    ensures Answer(t0, a0, w0) == OrElse(Deeper(Answer(t, a, w), 6 * d), best)
  {
  }

  lemma {:induction false} SearchFold(t0: Tree, a0: Bits, w0: nat, t: Tree, a: Bits, w: nat, d: nat,
                                      best: Option<Hit>)
    requires Packed(t0) && w0 <= |a0| && Packed(t) && Fits(t, w) && w <= |a| && STRIDE <= |a|
    requires Answer(t0, a0, w0) == OrElse(Deeper(Answer(t, a, w), 6 * d), best)
    ensures Searching(t0, a0, w0, t, a, w, d, best)
  {
  }

  lemma {:induction false} AnswerTwice(x: Option<Hit>, h: Option<Hit>, best: Option<Hit>, d: nat)
    ensures OrElse(Deeper(OrElse(Deeper(x, STRIDE), h), 6 * d), best)
         == OrElse(Deeper(x, 6 * (d + 1)), OrElse(Deeper(h, 6 * d), best))
  {
  }

  lemma {:induction false} SearchStops(t0: Tree, a0: Bits, w0: nat, t: Tree, a: Bits, w: nat, d: nat,
                                       best: Option<Hit>)
    requires Packed(t0) && w0 <= |a0| && Searching(t0, a0, w0, t, a, w, d, best) && !Bit(t.ext, Val(a[..STRIDE]))
    ensures Answer(t0, a0, w0) == OrElse(Deeper(NodeHit(t, a, STRIDE), 6 * d), best)
  {
    AnswerStop(t, a, w);
  }

  function NhiOpt(h: Option<Hit>): Option<Nhi> {
    if h.Some? then Some(h.value.nhi) else None
  }

  lemma {:induction false} Noted(h: Option<Hit>, best: Option<Hit>, d: nat)
    ensures NhiOpt(OrElse(Deeper(h, d), best)) == if h.Some? then Some(h.value.nhi) else NhiOpt(best)
    ensures NhiOpt(None) == None && NhiOf(best) == if NhiOpt(best).Some? then NhiOpt(best).value else NULL
  {
  }

  // ----- lazy search ------------------------------------------------------------------

  /** struct lazy_travel: a node passed on the way down, and the stride that was followed. */
  datatype LazyTravel = LazyTravel(lazyP: Ptr, stride: nat)

  /** A node passed on the way down and the rest of the address there. */
  datatype Seat = Seat(f: Shape, a: Bits)

  ghost predicate AllSeats(st: seq<Seat>) {
    forall i | 0 <= i < |st| :: Packed(Data(st[i].f)) && STRIDE <= |st[i].a|
  }

  /** The best match of the nodes passed: the deepest node that has one answers. */
  ghost function Back(st: seq<Seat>): Option<Hit>
    requires AllSeats(st)
  {
    if st == [] then None else
      var k := |st| - 1;
      OrElse(Deeper(NodeHit(Data(st[k].f), st[k].a, STRIDE), 6 * k), Back(st[..k]))
  }

  /** The mark points to the node of the seat. */
  ghost predicate MarkOf(root: Ptr, s: Shape, mk: LazyTravel, seat: Seat, d: nat)
    reads root.arr, Foot(s)
  {
    && Seen(root, s, mk.lazyP, seat.f, d) && STRIDE <= |seat.a|
    && mk.stride == Val(seat.a[..STRIDE]) < 64
  }

  ghost predicate Marks(root: Ptr, s: Shape, mks: seq<LazyTravel>, st: seq<Seat>)
    reads root.arr, Foot(s)
  {
    AllSeats(st) && |st| <= |mks| && forall i: nat | i < |st| :: MarkOf(root, s, mks[i], st[i], i)
  }

  lemma {:induction false} MarksStart(root: Ptr, s: Shape, mks: seq<LazyTravel>)
    ensures Marks(root, s, mks, []) && AllSeats([]) && Back([]) == None
  {
  }

  lemma {:induction false} MarksPush(root: Ptr, s: Shape, mks: seq<LazyTravel>, st: seq<Seat>, n: Ptr, f: Shape,
                                     a: Bits,
                                     stride: nat)
    requires Marks(root, s, mks, st) && |st| < |mks|
    requires Seen(root, s, n, f, |st|) && STRIDE <= |a| && stride == Val(a[..STRIDE]) < 64
    ensures AllSeats(st) && AllSeats(st + [Seat(f, a)]) && Packed(Data(f)) && STRIDE <= |a|
    ensures Marks(root, s, mks[|st| := LazyTravel(n, stride)], st + [Seat(f, a)])
    ensures Back(st + [Seat(f, a)]) == OrElse(Deeper(NodeHit(Data(f), a, STRIDE), 6 * |st|), Back(st))
  {
    var us, vs := mks[|st| := LazyTravel(n, stride)], st + [Seat(f, a)];
    SeenNode(root, s, n, f, |st|);
    forall i: nat | i < |vs| ensures MarkOf(root, s, us[i], vs[i], i) {
      if i < |st| { assert MarkOf(root, s, mks[i], st[i], i); }
    }
    assert vs[..|st|] == st;
  }

  lemma {:induction false} MarksPop(root: Ptr, s: Shape, mks: seq<LazyTravel>, st: seq<Seat>, k: nat)
    requires Marks(root, s, mks, st) && |st| == k + 1
    ensures AllSeats(st) && AllSeats(st[..k]) && k < |mks| && Marks(root, s, mks, st[..k])
    ensures MarkOf(root, s, mks[k], st[k], k) && STRIDE <= |st[k].a| && Packed(Data(st[k].f))
    ensures Seen(root, s, mks[k].lazyP, st[k].f, k) && mks[k].stride == Val(st[k].a[..STRIDE]) < 64
    ensures Back(st) == OrElse(Deeper(NodeHit(Data(st[k].f), st[k].a, STRIDE), 6 * k), Back(st[..k]))
  {
    assert MarkOf(root, s, mks[k], st[k], k);
    forall i: nat | i < k ensures MarkOf(root, s, mks[i], st[..k][i], i) {
      assert MarkOf(root, s, mks[i], st[i], i);
    }
  }

  /** The state of a search on the way down, with a mark for every node passed; a is what is left of
      the address a0. */
  ghost predicate Lane(root: Ptr, s: Shape, w: nat, a0: Bits, n: Ptr, a: Bits, mks: seq<LazyTravel>,
                       f: Shape, st: seq<Seat>)
    reads root.arr, Foot(s)
  {
    && Packed(Data(s)) && w <= |a0| && 6 * |st| <= w && w < 6 * |mks|
    && Seen(root, s, n, f, |st|) && Marks(root, s, mks, st)
    && Searching(Data(s), a0, w, Data(f), a, w - 6 * |st|, |st|, Back(st))
  }

  lemma {:induction false} LaneStarts(root: Ptr, s: Shape, w: nat, a: Bits, mks: seq<LazyTravel>)
    requires At(root, s) && Match(s, 0) && Packed(Data(s)) && Fits(Data(s), w) && w <= |a| && STRIDE <= |a|
    requires w < 6 * |mks|
    ensures Lane(root, s, w, a, root, a, mks, s, [])
  {
    MarksStart(root, s, mks);
    SeenRoot(root, s);
    SearchStarts(Data(s), a, w);
  }

  /** What one step of a search needs to know. */
  lemma {:induction false} LaneHere(fct: seq<Word>, root: Ptr, s: Shape, w: nat, a0: Bits, n: Ptr, a: Bits,
                                    mks: seq<LazyTravel>, f: Shape, st: seq<Seat>)
    requires Ready(fct) && Lane(root, s, w, a0, n, a, mks, f, st)
    ensures STRIDE == 6 <= |a| && |fct| == 32
    ensures Seen(root, s, n, f, |st|) && n.arr in Foot(s) + {root.arr}
    ensures n.idx < n.arr.Length && n.arr[n.idx].external == f.ext && n.arr[n.idx].internal == f.inl
  {
    SeenNode(root, s, n, f, |st|);
  }

  lemma {:induction false} LaneDown(root: Ptr, s: Shape, w: nat, a0: Bits, n: Ptr, a: Bits, mks: seq<LazyTravel>,
                                    f: Shape, st: seq<Seat>, stride: nat) returns (g: Shape)
    requires Lane(root, s, w, a0, n, a, mks, f, st) && STRIDE <= |a|
    requires stride == Val(a[..STRIDE]) < 64 && Bit(f.ext, stride)
    ensures n.idx < n.arr.Length && n.arr[n.idx].block != null && Rank(n.arr[n.idx].external, stride) >= 1
    ensures |st| < |mks| && 6 * (|st| + 1) <= w
    ensures Lane(root, s, w, a0, NextChild(n, stride), Shifted(a), mks[|st| := LazyTravel(n, stride)],
                 g, st + [Seat(f, a)])
  {
    hide Sees, Fits, Packs, Matches, Answer;
    SearchDown(Data(s), a0, w, Data(f), a, w - 6 * |st|, |st|, Back(st));
    MarksPush(root, s, mks, st, n, f, a, stride);
    g := SeenChild(root, s, n, f, |st|, stride);
  }

  lemma {:induction false} LaneStops(root: Ptr, s: Shape, w: nat, a0: Bits, n: Ptr, a: Bits, mks: seq<LazyTravel>,
                                     f: Shape, st: seq<Seat>, stride: nat)
    requires Lane(root, s, w, a0, n, a, mks, f, st) && STRIDE <= |a|
    requires stride == Val(a[..STRIDE]) < 64 && !Bit(f.ext, stride)
    ensures Packed(Data(f)) && Packed(Data(s)) && w <= |a0| && AllSeats(st) && |st| <= |mks|
    ensures Marks(root, s, mks, st)
    ensures Answer(Data(s), a0, w) == OrElse(Deeper(NodeHit(Data(f), a, STRIDE), 6 * |st|), Back(st))
  {
    hide Sees, Fits, Packs, Matches, Answer;
    SearchStops(Data(s), a0, w, Data(f), a, w - 6 * |st|, |st|, Back(st));
  }

  /** The value of OrElse(h, b), and what is left of it. */
  lemma {:induction false} HitOr(h: Option<Hit>, b: Option<Hit>, d: nat)
    ensures h.Some? ==> NhiOf(OrElse(Deeper(h, d), b)) == h.value.nhi
    ensures h.None? ==> OrElse(Deeper(h, d), b) == b
    ensures NhiOf(None) == NULL
  {
  }

  /** The last part of a lazy search: the deepest node passed that has a match answers. */
  method Backtrack(fct: seq<Word>, mks: seq<LazyTravel>, ghost root: Ptr, n0: Ptr, stride0: nat, depth: nat,
                   ghost s: Shape, ghost f: Shape, ghost a: Bits, ghost st0: seq<Seat>)
    returns (r: Nhi)
    requires Ready(fct) && Seen(root, s, n0, f, depth) && STRIDE <= |a| && stride0 == Val(a[..STRIDE]) < 64
    requires Marks(root, s, mks, st0) && depth == |st0| && AllSeats(st0) && Packed(Data(f)) && STRIDE <= |a|
    ensures r == NhiOf(OrElse(Deeper(NodeHit(Data(f), a, STRIDE), 6 * depth), Back(st0)))
  {
    hide *;
    SeenHit(fct, root, s, n0, f, depth, stride0, a);
    HitOr(NodeHit(Data(f), a, STRIDE), Back(st0), 6 * depth);
    var n, stride := n0, stride0;
    var pos := TreeFunction(fct, n.arr[n.idx].internal, stride);
    if pos != -1 {
      return NhiAt(n, pos);
    }
    var travelDepth := depth;
    ghost var st := st0;
    while travelDepth > 0
      invariant travelDepth == |st| && AllSeats(st) && Marks(root, s, mks, st)
      invariant Back(st) == Back(st0)
    {
      travelDepth := travelDepth - 1;
      MarksPop(root, s, mks, st, travelDepth);
      n, stride := mks[travelDepth].lazyP, mks[travelDepth].stride;
      ghost var seat := st[travelDepth];
      SeenHit(fct, root, s, n, seat.f, travelDepth, stride, seat.a);
      st := st[..travelDepth];
      HitOr(NodeHit(Data(seat.f), seat.a, STRIDE), Back(st), 6 * travelDepth);
      pos := TreeFunction(fct, n.arr[n.idx].internal, stride);
      if pos != -1 {
        return NhiAt(n, pos);
      }
    }
    MarksStart(root, s, mks);
    r := NULL;
  }
}
