/** A trie with one node picked out: the nodes above it, and the rest of their subtries. */
module Spine {
  import opened Words
  import opened Addresses
  import opened Trees
  import opened Memory
  import opened Shapes
  import opened MbNode
  import opened Usage

  /** A node on the way down and the external bit that was followed. */
  datatype Frame = Frame(s: Shape, bit: nat)

  ghost predicate Sound(fr: Frame) {
    Packed(Data(fr.s)) && Bit(fr.s.ext, fr.bit)
  }

  /** The offset of the child that was followed. */
  ghost function Hole(fr: Frame): (k: nat)
    requires Sound(fr)
    ensures k < |fr.s.kids|
  {
    RankBounds(fr.s.ext, fr.bit);
    CountOnes(fr.s.ext, fr.bit)
  }

  /** The node with f in place of the child that was followed. */
  ghost function PlugOne(fr: Frame, f: Shape): (s: Shape)
    requires Sound(fr)
    ensures RootOf(s) == RootOf(fr.s)
  {
    fr.s.(kids := fr.s.kids[Hole(fr) := f])
  }

  ghost function FrameFoot(fr: Frame): set<object>
    requires Sound(fr)
  {
    BlockFoot(fr.s.block) + KidsFoot(RemoveAt(fr.s.kids, Hole(fr)))
  }

  /** Memory holds the frame, with the struct `root` in the hole. */
  ghost predicate FrameMatch(fr: Frame, root: Struct, d: nat)
    requires Sound(fr)
    reads FrameFoot(fr)
  {
    FrameMatches(fr, root, d) == true
  }

  ghost predicate FrameMatches(fr: Frame, root: Struct, d: nat)
    requires Sound(fr)
    reads FrameFoot(fr)
  {
    && Built(fr.s.block, fr.s.rules, RootsOf(fr.s.kids)[Hole(fr) := root], d)
    && AllMatch(RemoveAt(fr.s.kids, Hole(fr)), d + 1)
    && BlockFoot(fr.s.block) !! KidsFoot(RemoveAt(fr.s.kids, Hole(fr)))
  }

  lemma {:induction false} PlugOneKids(fr: Frame, f: Shape)
    requires Sound(fr)
    ensures InsertAt(RemoveAt(fr.s.kids, Hole(fr)), Hole(fr), f) == PlugOne(fr, f).kids
    ensures RootsOf(PlugOne(fr, f).kids) == RootsOf(fr.s.kids)[Hole(fr) := RootOf(f)]
    ensures Data(PlugOne(fr, f)) == PutChild(Data(fr.s), fr.bit, Data(f))
  {
    assert Datas(PlugOne(fr, f).kids) == Datas(fr.s.kids)[Hole(fr) := Data(f)];
  }

  /** Filling the hole. */
  lemma {:induction false} Fill(fr: Frame, f: Shape, d: nat)
    requires Sound(fr) && FrameMatch(fr, RootOf(f), d)
    requires Match(f, d + 1) && FrameFoot(fr) !! Foot(f)
    ensures Match(PlugOne(fr, f), d) && Foot(PlugOne(fr, f)) == FrameFoot(fr) + Foot(f)
  {
    var others := RemoveAt(fr.s.kids, Hole(fr));
    PlugOneKids(fr, f);
    AllMatchInsert(others, Hole(fr), f, d + 1);
    KidsFootInsert(others, Hole(fr), f);
    Assemble(PlugOne(fr, f), d);
  }

  /** Picking out a child. */
  lemma {:induction false} Dig(s: Shape, bit: nat, d: nat)
    requires Match(s, d) && Sound(Frame(s, bit))
    ensures FrameMatch(Frame(s, bit), RootOf(s.kids[Hole(Frame(s, bit))]), d)
    ensures Match(s.kids[Hole(Frame(s, bit))], d + 1)
    ensures FrameFoot(Frame(s, bit)) !! Foot(s.kids[Hole(Frame(s, bit))])
    ensures FrameFoot(Frame(s, bit)) + Foot(s.kids[Hole(Frame(s, bit))]) == Foot(s)
    ensures s.block != null && s.block.kids in FrameFoot(Frame(s, bit))
    ensures s.block.kids.Length == |s.kids|
    ensures s.block.kids[Hole(Frame(s, bit))] == RootOf(s.kids[Hole(Frame(s, bit))])
  {
    var k := Hole(Frame(s, bit));
    AllMatchRemove(s.kids, k, d + 1);
    ApartRemove(s.kids, k, d + 1);
    KidsFootRemove(s.kids, k);
    assert RootsOf(s.kids)[k := RootOf(s.kids[k])] == RootsOf(s.kids);
    assert RootsOf(s.kids)[k] == RootOf(s.kids[k]);
  }

  // ----- the whole way down -----------------------------------------------------------

  ghost predicate AllSound(fs: seq<Frame>) {
    forall i | 0 <= i < |fs| :: Sound(fs[i])
  }

  ghost function SpineFoot(fs: seq<Frame>): set<object>
    requires AllSound(fs)
  {
    set i, o | 0 <= i < |fs| && o in FrameFoot(fs[i]) :: o
  }

  /** The struct in the hole of frame i. */
  ghost function Below(fs: seq<Frame>, root: Struct, i: nat): Struct
    requires i < |fs|
  {
    if i + 1 < |fs| then RootOf(fs[i + 1].s) else root
  }

  /** Memory holds the frames, each in the hole of the one above, and `root` in the last hole. */
  ghost predicate SpineMatch(fs: seq<Frame>, root: Struct)
    requires AllSound(fs)
    reads SpineFoot(fs)
  {
    SpineMatches(fs, root) == true
  }

  ghost predicate SpineMatches(fs: seq<Frame>, root: Struct)
    requires AllSound(fs)
    reads SpineFoot(fs)
  {
    && (forall i | 0 <= i < |fs| :: FrameMatches(fs[i], Below(fs, root, i), i))
    && (forall i, j | 0 <= i < j < |fs| :: FrameFoot(fs[i]) !! FrameFoot(fs[j]))
  }

  ghost function Plug(fs: seq<Frame>, f: Shape): (s: Shape)
    requires AllSound(fs)
    ensures RootOf(s) == if fs == [] then RootOf(f) else RootOf(fs[0].s)
  {
    if fs == [] then f else Plug(fs[..|fs| - 1], PlugOne(fs[|fs| - 1], f))
  }

  ghost function PlugT(fs: seq<Frame>, t: Tree): Tree
    requires AllSound(fs)
  {
    if fs == [] then t else
      var fr := fs[|fs| - 1];
      PlugT(fs[..|fs| - 1], PutChild(Data(fr.s), fr.bit, t))
  }

  lemma {:induction false} SpineFootLast(fs: seq<Frame>)
    requires AllSound(fs) && fs != []
    ensures SpineFoot(fs) == SpineFoot(fs[..|fs| - 1]) + FrameFoot(fs[|fs| - 1])
  {
    var gs := fs[..|fs| - 1];
    forall o | o in SpineFoot(fs) ensures o in SpineFoot(gs) + FrameFoot(fs[|fs| - 1]) {
      var i :| 0 <= i < |fs| && o in FrameFoot(fs[i]);
      if i < |gs| { assert gs[i] == fs[i]; }
    }
    forall o | o in SpineFoot(gs) ensures o in SpineFoot(fs) {
      var i :| 0 <= i < |gs| && o in FrameFoot(gs[i]);
      assert gs[i] == fs[i];
    }
  }

  lemma {:induction false} SpineApart(fs: seq<Frame>, root: Struct)
    requires AllSound(fs) && fs != [] && SpineMatch(fs, root)
    ensures SpineFoot(fs[..|fs| - 1]) !! FrameFoot(fs[|fs| - 1])
  {
    var gs, last := fs[..|fs| - 1], fs[|fs| - 1];
    forall o | o in SpineFoot(gs) ensures o !in FrameFoot(last) {
      var i :| 0 <= i < |gs| && o in FrameFoot(gs[i]);
      assert FrameFoot(fs[i]) !! FrameFoot(fs[|fs| - 1]);
    }
  }

  lemma {:induction false} SpineLast(fs: seq<Frame>, root: Struct)
    requires AllSound(fs) && fs != [] && SpineMatch(fs, root)
    ensures FrameMatch(fs[|fs| - 1], root, |fs| - 1)
  {
    assert FrameMatches(fs[|fs| - 1], Below(fs, root, |fs| - 1), |fs| - 1);
  }

  /** The last frame can be taken off the spine. */
  lemma {:induction false} SpinePop(fs: seq<Frame>, root: Struct)
    requires AllSound(fs) && fs != [] && SpineMatch(fs, root)
    ensures SpineMatch(fs[..|fs| - 1], RootOf(fs[|fs| - 1].s))
  {
    hide FrameMatches, FrameFoot, Sound;
    var gs, last := fs[..|fs| - 1], fs[|fs| - 1];
    forall i | 0 <= i < |gs| ensures FrameMatches(gs[i], Below(gs, RootOf(last.s), i), i) {
      assert FrameMatches(fs[i], Below(fs, root, i), i);
      assert gs[i] == fs[i] && Below(gs, RootOf(last.s), i) == Below(fs, root, i);
    }
    forall i, j | 0 <= i < j < |gs| ensures FrameFoot(gs[i]) !! FrameFoot(gs[j]) {
      assert FrameFoot(fs[i]) !! FrameFoot(fs[j]);
    }
  }

  /** One more frame at the end of the spine. */
  lemma {:induction false} SpinePush(fs: seq<Frame>, fr: Frame, root: Struct)
    requires AllSound(fs) && Sound(fr) && SpineMatch(fs, RootOf(fr.s))
    requires FrameMatch(fr, root, |fs|) && SpineFoot(fs) !! FrameFoot(fr)
    ensures AllSound(fs + [fr]) && SpineMatch(fs + [fr], root)
    ensures SpineFoot(fs + [fr]) == SpineFoot(fs) + FrameFoot(fr)
  {
    hide FrameMatches, FrameFoot, Sound;
    var gs := fs + [fr];
    SpineFootLast(gs);
    assert gs[..|gs| - 1] == fs;
    forall i | 0 <= i < |gs| ensures FrameMatches(gs[i], Below(gs, root, i), i) {
      if i < |fs| { assert FrameMatches(fs[i], Below(fs, RootOf(fr.s), i), i); }
    }
    forall i, j | 0 <= i < j < |gs| ensures FrameFoot(gs[i]) !! FrameFoot(gs[j]) {
      forall o | o in FrameFoot(gs[i]) ensures o !in FrameFoot(gs[j]) {
        if j == |fs| { assert o in SpineFoot(fs); }
      }
    }
  }

  /** Filling the last hole makes memory hold the whole trie again. */
  lemma {:induction false} FillAll(fs: seq<Frame>, f: Shape)
    requires AllSound(fs) && SpineMatch(fs, RootOf(f)) && Match(f, |fs|)
    requires SpineFoot(fs) !! Foot(f)
    ensures Match(Plug(fs, f), 0) && Foot(Plug(fs, f)) == SpineFoot(fs) + Foot(f)
    decreases |fs|
  {
    if fs != [] {
      SpinePop(fs, RootOf(f));
      SpineLast(fs, RootOf(f));
      SpineApart(fs, RootOf(f));
      SpineFootLast(fs);
      var gs, last := fs[..|fs| - 1], fs[|fs| - 1];
      Fill(last, f, |gs|);
      FillAll(gs, PlugOne(last, f));
    }
  }

  // ----- writing the struct in the last hole ------------------------------------------

  /** Everything the spine owns but the array that holds the last struct. */
  ghost function RestFoot(fs: seq<Frame>): set<object>
    requires AllSound(fs)
  {
    if fs == [] then {} else
      var fr := fs[|fs| - 1];
      SpineFoot(fs[..|fs| - 1]) + (if fr.s.block == null then {} else {fr.s.block, fr.s.block.rules})
      + KidsFoot(RemoveAt(fr.s.kids, Hole(fr)))
  }

  ghost predicate Rest(fs: seq<Frame>)
    requires AllSound(fs)
    reads RestFoot(fs)
  {
    Rests(fs) == true
  }

  ghost predicate Rests(fs: seq<Frame>)
    requires AllSound(fs)
    reads RestFoot(fs)
  {
    fs != [] ==>
      var gs, fr := fs[..|fs| - 1], fs[|fs| - 1];
      var b := fr.s.block;
      var others := RemoveAt(fr.s.kids, Hole(fr));
      && SpineMatch(gs, RootOf(fr.s)) && SpineFoot(gs) !! FrameFoot(fr)
      && b != null && b.level == |gs| && b.rules[..] == fr.s.rules
      && b.up == UpRule(|fr.s.rules|) && b.units == |fr.s.kids| + UpRule(|fr.s.rules|)
      && AllMatch(others, |gs| + 1) && BlockFoot(b) !! KidsFoot(others)
  }

  /** The last array holds the structs of the children, and x in the hole. */
  ghost predicate HoleHolds(fs: seq<Frame>, x: Struct)
    requires AllSound(fs)
    reads if fs == [] then {} else BlockFoot(fs[|fs| - 1].s.block)
  {
    fs != [] ==>
      var fr := fs[|fs| - 1];
      fr.s.block != null && fr.s.block.kids[..] == RootsOf(fr.s.kids)[Hole(fr) := x]
  }

  lemma {:induction false} SplitSpine(fs: seq<Frame>, x: Struct)
    requires AllSound(fs) && SpineMatch(fs, x)
    ensures Rest(fs) && HoleHolds(fs, x)
    ensures fs != [] ==> SpineFoot(fs) == RestFoot(fs) + {fs[|fs| - 1].s.block.kids}
    ensures fs != [] ==> fs[|fs| - 1].s.block.kids !in RestFoot(fs)
  {
    if fs != [] {
      SpinePop(fs, x);
      SpineLast(fs, x);
      SpineApart(fs, x);
      SpineFootLast(fs);
      assert |RootsOf(fs[|fs| - 1].s.kids)| > 0;
    }
  }

  lemma {:induction false} JoinSpine(fs: seq<Frame>, x: Struct)
    requires AllSound(fs) && Rest(fs) && HoleHolds(fs, x)
    ensures SpineMatch(fs, x)
  {
    if fs != [] {
      var gs, fr := fs[..|fs| - 1], fs[|fs| - 1];
      assert Built(fr.s.block, fr.s.rules, RootsOf(fr.s.kids)[Hole(fr) := x], |gs|);
      SpinePush(gs, fr, x);
      assert gs + [fr] == fs;
    }
  }

  // ----- the data of a plugged trie ---------------------------------------------------

  lemma {:induction false} PlugData(fs: seq<Frame>, f: Shape)
    requires AllSound(fs)
    ensures Data(Plug(fs, f)) == PlugT(fs, Data(f))
    decreases |fs|
  {
    if fs != [] {
      PlugOneKids(fs[|fs| - 1], f);
      PlugData(fs[..|fs| - 1], PlugOne(fs[|fs| - 1], f));
    }
  }

  lemma {:induction false} PlugPacked(fs: seq<Frame>, t: Tree)
    requires AllSound(fs) && Packed(t)
    ensures Packed(PlugT(fs, t))
    decreases |fs|
  {
    if fs != [] {
      var fr := fs[|fs| - 1];
      PutChildKeeps(Data(fr.s), fr.bit, t, 0);
      PlugPacked(fs[..|fs| - 1], PutChild(Data(fr.s), fr.bit, t));
    }
  }

  /** The key bits that lead down the spine. */
  ghost function Path(fs: seq<Frame>): (p: Bits)
    requires AllSound(fs)
    ensures |p| == 6 * |fs|
  {
    if fs == [] then [] else
      WordBit(fs[|fs| - 1].s.ext, fs[|fs| - 1].bit);
      Path(fs[..|fs| - 1]) + ToBits(fs[|fs| - 1].bit, STRIDE)
  }

  lemma {:induction false} StrideBits(bit: nat, k: Bits)
    requires bit < 64
    ensures (ToBits(bit, STRIDE) + k)[..STRIDE] == ToBits(bit, STRIDE)
    ensures (ToBits(bit, STRIDE) + k)[STRIDE..] == k
    ensures Val(ToBits(bit, STRIDE)) == bit
  {
    Pow2Thirty2();
    ValToBits(bit, STRIDE);
  }

  lemma {:induction false} InsertBelow(t: Tree, bit: nat, c: Tree, k: Bits, v: Nhi)
    requires Packed(t) && Packed(c) && Bit(t.ext, bit) && bit < 64
    ensures Packed(PutChild(t, bit, c))
    ensures InsertT(PutChild(t, bit, c), ToBits(bit, STRIDE) + k, v) == PutChild(t, bit, InsertT(c, k, v))
  {
    StrideBits(bit, k);
    PutChildKeeps(t, bit, c, bit);
    PutChildKeeps(t, bit, InsertT(c, k, v), bit);
  }

  lemma {:induction false} PathStep(fs: seq<Frame>, k: Bits)
    requires AllSound(fs) && fs != []
    ensures Path(fs) + k == Path(fs[..|fs| - 1]) + (ToBits(fs[|fs| - 1].bit, STRIDE) + k)
  {
  }

  /** Inserting below the spine is inserting into the whole trie. */
  lemma {:induction false} InsertPlug(fs: seq<Frame>, t: Tree, k: Bits, v: Nhi)
    requires AllSound(fs) && Packed(t)
    ensures Packed(PlugT(fs, t))
    ensures InsertT(PlugT(fs, t), Path(fs) + k, v) == PlugT(fs, InsertT(t, k, v))
    decreases |fs|
  {
    PlugPacked(fs, t);
    if fs == [] {
      assert Path(fs) + k == k;
    } else {
      var gs, fr := fs[..|fs| - 1], fs[|fs| - 1];
      WordBit(fr.s.ext, fr.bit);
      InsertBelow(Data(fr.s), fr.bit, t, k, v);
      var c, r := PutChild(Data(fr.s), fr.bit, t), InsertT(t, k, v);
      var k' := ToBits(fr.bit, STRIDE) + k;
      PathStep(fs, k);
      InsertPlug(gs, c, k', v);
      assert PlugT(fs, t) == PlugT(gs, c) && PlugT(fs, r) == PlugT(gs, PutChild(Data(fr.s), fr.bit, r));
    }
  }

  lemma {:induction false} PlugUnits(fs: seq<Frame>, t: Tree, u: Tree, d: nat)
    requires AllSound(fs) && Packed(t) && Packed(u)
    ensures Units(PlugT(fs, t), d) - Units(PlugT(fs, u), d)
         == if d < |fs| then 0 else Units(t, d - |fs|) - Units(u, d - |fs|)
    decreases |fs|
  {
    if fs != [] {
      var gs, fr := fs[..|fs| - 1], fs[|fs| - 1];
      var s := Data(fr.s);
      PutChildKeeps(s, fr.bit, t, 0);
      PutChildKeeps(s, fr.bit, u, 0);
      PlugUnits(gs, PutChild(s, fr.bit, t), PutChild(s, fr.bit, u), d);
      if d >= |gs| {
        PutChildUnits(s, fr.bit, t, d - |gs|);
        PutChildUnits(s, fr.bit, u, d - |gs|);
      }
    }
  }

  /** A change of one node at the end of the spine, booked on its level, is booked right. */
  lemma {:induction false} ChargedFollows(fs: seq<Frame>, u: seq<int>, v: seq<int>, t: Tree, r: Tree)
    requires AllSound(fs) && Packed(t) && Packed(r)
    requires Charged(u, v, |fs|, NodeUnits(r) - NodeUnits(t))
    requires forall d: nat | d > 0 :: Units(r, d) == Units(t, d)
    ensures Follows(u, v, PlugT(fs, t), PlugT(fs, r))
  {
    forall d | 0 <= d < |u| ensures v[d] - u[d] == Units(PlugT(fs, r), d) - Units(PlugT(fs, t), d) {
      PlugUnits(fs, r, t, d);
    }
  }
}
