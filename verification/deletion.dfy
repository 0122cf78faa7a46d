/** Delete with bottom-up pruning (lib/bitmap.c, and the loops of lib/bitmap_v4.c and
    lib/bitmap_v6.c). The key is what is left of the prefix, as bits. */
module Deletion {
  import opened Words
  import opened Addresses
  import opened Trees
  import opened Memory
  import opened Shapes
  import opened MbNode
  import opened Usage
  import opened Spine
  import opened Walk
  import opened Insertion

  /** struct trace: a node on the way down and the bit that was followed. */
  datatype Trace = Trace(node: Ptr, pos: nat)

  /** The subtrie at depth i on the way to the node f. */
  ghost function Level(fs: seq<Frame>, f: Tree, i: nat): Tree
    requires i <= |fs|
  {
    if i < |fs| then Data(fs[i].s) else f
  }

  /** Frame i follows the key. */
  ghost predicate Step(fs: seq<Frame>, f: Tree, key: Bits, i: nat)
    requires AllSound(fs)
  {
    && i < |fs| && 6 * i + STRIDE <= |key|
    && fs[i].bit == Val(key[6 * i..][..STRIDE])
    && ChildAt(Data(fs[i].s), fs[i].bit) == Level(fs, f, i + 1)
  }

  /** fs is the way that `key` leads, down to the node f. */
  ghost predicate Way(fs: seq<Frame>, f: Tree, key: Bits) {
    AllSound(fs) && Packed(f) && 6 * |fs| <= |key| && forall i: nat | i < |fs| :: Step(fs, f, key, i)
  }

  /** At the end of the way the key is stored. */
  ghost predicate Chain(fs: seq<Frame>, f: Tree, key: Bits) {
    Way(fs, f, key) && |key| < 6 * |fs| + STRIDE && Get(f, key[6 * |fs|..]).Some?
  }

  lemma {:induction false} WayStep(fs: seq<Frame>, f: Tree, key: Bits, i: nat)
    requires Way(fs, f, key) && i < |fs|
    ensures Step(fs, f, key, i) && Packed(Data(fs[i].s)) && Bit(fs[i].s.ext, fs[i].bit) && fs[i].bit < 64
    ensures Packed(Level(fs, f, i)) && Packed(Level(fs, f, i + 1))
    ensures key[6 * i..][STRIDE..] == key[6 * (i + 1)..]
    ensures Get(Level(fs, f, i), key[6 * i..]) == Get(Level(fs, f, i + 1), key[6 * (i + 1)..])
  {
    assert Step(fs, f, key, i) && Sound(fs[i]);
    WordBit(fs[i].s.ext, fs[i].bit);
    assert key[6 * i..][STRIDE..] == key[6 * (i + 1)..];
    assert Packed(Data(fs[i].s));
  }

  /** The key is stored in every subtrie on the way. */
  lemma {:induction false} ChainGet(fs: seq<Frame>, f: Tree, key: Bits, i: nat)
    requires Chain(fs, f, key) && i <= |fs|
    ensures Packed(Level(fs, f, i)) && 6 * i <= |key|
    ensures Get(Level(fs, f, i), key[6 * i..]).Some?
    decreases |fs| - i
  {
    if i < |fs| {
      ChainGet(fs, f, key, i + 1);
      WayStep(fs, f, key, i);
    }
  }

  lemma {:induction false} WayPush(fs: seq<Frame>, f: Shape, key: Bits, bit: nat, c: Tree)
    requires Way(fs, Data(f), key) && Sound(Frame(f, bit)) && c == ChildAt(Data(f), bit)
    requires 6 * |fs| + STRIDE <= |key| && bit == Val(key[6 * |fs|..][..STRIDE])
    ensures Way(fs + [Frame(f, bit)], c, key)
  {
    var gs := fs + [Frame(f, bit)];
    forall i: nat | i < |gs| ensures Step(gs, c, key, i) {
      if i < |fs| {
        assert Step(fs, Data(f), key, i);
        assert Level(fs, Data(f), i + 1) == Level(gs, c, i + 1);
      }
    }
  }

  // ----- the ledger -------------------------------------------------------------------

  lemma {:induction false} DropRuleUnits(t: Tree, k: Bits)
    requires Packed(t) && |k| < STRIDE && Get(t, k).Some?
    ensures forall d: nat | d > 0 :: Units(DeleteT(t, k), d) == Units(t, d)
  {
  }

  lemma {:induction false} DropEmptyUnits(t: Tree, p: nat)
    requires Packed(t) && p < 64 && Bit(t.ext, p) && Empty(ChildAt(t, p))
    ensures forall d: nat | d > 0 :: Units(DropChild(t, p), d) == Units(t, d)
  {
    RankBounds(t.ext, p);
    forall d: nat | d > 0 ensures Units(DropChild(t, p), d) == Units(t, d) {
      KidsUnitsRemove(t.kids, CountOnes(t.ext, p), d - 1);
      EmptyTreeUnits(ChildAt(t, p), d - 1);
    }
  }

  lemma {:induction false} DropBooked(fs: seq<Frame>, u: seq<int>, v: seq<int>, w: seq<int>, t0: Tree, t: Tree,
                                      k: Bits)
    requires AllSound(fs) && Packed(t) && |k| < STRIDE && Get(t, k).Some? && Follows(u, v, t0, PlugT(fs, t))
    requires Charged(v, w, |fs|, NodeUnits(DeleteT(t, k)) - NodeUnits(t))
    ensures Follows(u, w, t0, PlugT(fs, DeleteT(t, k)))
  {
    DropRuleUnits(t, k);
    Booked(fs, u, v, w, t0, t, DeleteT(t, k));
  }

  lemma {:induction false} PruneBooked(fs: seq<Frame>, u: seq<int>, v: seq<int>, w: seq<int>, t0: Tree, t: Tree,
                                       p: nat)
    requires AllSound(fs) && Packed(t) && p < 64 && Bit(t.ext, p) && Empty(ChildAt(t, p))
    requires Follows(u, v, t0, PlugT(fs, t))
    requires Charged(v, w, |fs|, NodeUnits(DropChild(t, p)) - NodeUnits(t))
    ensures Follows(u, w, t0, PlugT(fs, DropChild(t, p)))
  {
    DropEmptyUnits(t, p);
    DropChildKeeps(t, p, 0);
    Booked(fs, u, v, w, t0, t, DropChild(t, p));
  }

  lemma {:induction false} DropPut(t: Tree, p: nat, c: Tree)
    requires Packed(t) && Bit(t.ext, p) && p < 64 && Packed(c)
    ensures Packed(PutChild(t, p, c)) && ChildAt(PutChild(t, p, c), p) == c
    ensures DropChild(PutChild(t, p, c), p) == DropChild(t, p)
  {
    RankBounds(t.ext, p);
    PutChildKeeps(t, p, c, p);
  }

  // ----- the passes of update_nodes ---------------------------------------------------

  lemma {:induction false} RuleOf(t: Tree, k: Bits)
    requires Packed(t) && |k| < STRIDE && Get(t, k).Some?
    ensures Bit(t.inl, Pos(k)) && DeleteT(t, k) == DropRule(t, Pos(k))
  {
  }

  lemma {:induction false} AtEmpty(node: Ptr, f: Shape)
    requires At(node, f)
    ensures node.idx < node.arr.Length
    ensures (node.arr[node.idx].internal == 0 && node.arr[node.idx].external == 0) == Empty(Data(f))
  {
  }

  /** The first pass: the rule leaves its node. */
  method DropPass(m: Mm, root: Ptr, node: Ptr, pos: nat, level: nat,
                  ghost fs: seq<Frame>, ghost f: Shape, ghost k: Bits, ghost t0: Tree, ghost u: seq<int>)
    returns (need: bool, ghost g: Shape)
    requires AllSound(fs) && Walking(m, root, fs, node, f) && level == |fs| && Packed(Data(f))
    requires |k| < STRIDE && pos == Pos(k) && Get(Data(f), k).Some?
    requires Follows(u, m.units, t0, PlugT(fs, Data(f)))
    modifies m.Repr(), node.arr, BlockFoot(f.block)
    ensures Walking(m, root, fs, node, g) && fresh(Foot(g) - Foot(f)) && OthersKept(node, old(node.arr[..]))
    ensures Data(g) == DeleteT(Data(f), k) && need == Empty(Data(g))
    ensures Follows(u, m.units, t0, PlugT(fs, Data(g)))
    ensures old(m.used) - BlockFoot(f.block) <= m.used
  {
    hide *;
    ghost var v := m.units;
    RuleOf(Data(f), k);
    g := DropRuleHere(m, root, node, pos, level, fs, f);
    DropBooked(fs, u, v, m.units, t0, Data(f), k);
    Reading(m, root, fs, node, g);
    AtEmpty(node, g);
    need := node.arr[node.idx].internal == 0 && node.arr[node.idx].external == 0;
  }

  /** The node above drops the child under `pos` if that is empty. */
  method PruneHere(m: Mm, root: Ptr, node: Ptr, pos: nat, level: nat, drop: bool,
                   ghost fs: seq<Frame>, ghost f: Shape, ghost t0: Tree, ghost u: seq<int>)
    returns (need: bool, ghost g: Shape)
    requires AllSound(fs) && Walking(m, root, fs, node, f) && level == |fs| && Packed(Data(f))
    requires pos < 64 && Bit(f.ext, pos) && drop == Empty(ChildAt(Data(f), pos))
    requires Follows(u, m.units, t0, PlugT(fs, Data(f)))
    modifies m.Repr(), node.arr, BlockFoot(f.block)
    ensures Walking(m, root, fs, node, g) && fresh(Foot(g) - Foot(f)) && OthersKept(node, old(node.arr[..]))
    ensures Data(g) == if drop then DropChild(Data(f), pos) else Data(f)
    ensures need == Empty(Data(g))
    ensures Follows(u, m.units, t0, PlugT(fs, Data(g)))
    ensures old(m.used) - BlockFoot(f.block) <= m.used
  {
    hide *;
    SameRoot(node, node.arr[..]);
    g := f;
    if drop {
      ghost var v := m.units;
      g := DropChildHere(m, root, node, pos, level, fs, f);
      PruneBooked(fs, u, v, m.units, t0, Data(f), pos);
    }
    Reading(m, root, fs, node, g);
    AtEmpty(node, g);
    need := node.arr[node.idx].internal == 0 && node.arr[node.idx].external == 0;
  }

  /** What a walk owns, seen from one node up. */
  lemma {:induction false} FreshUp(a: set<object>, b: set<object>, x: set<object>, y: set<object>, g: set<object>)
    requires a + b == x + y
    ensures a + g - (x + y) <= g - b
  {
  }

  /** A later pass: an empty child leaves the node above it. */
  method PrunePass(m: Mm, root: Ptr, node: Ptr, pos: nat, level: nat, drop: bool,
                   ghost fs: seq<Frame>, ghost child: Ptr, ghost c: Shape, ghost t0: Tree, ghost u: seq<int>)
    returns (need: bool, ghost g: Shape)
    requires AllSound(fs) && fs != [] && AllSound(fs[..|fs| - 1])
    requires Walking(m, root, fs, child, c) && level == |fs| - 1 && Packed(Data(c))
    requires level == 0 ==> node == root
    requires Reached(fs[..|fs| - 1], node)
    requires pos == fs[|fs| - 1].bit && pos < 64 && drop == Empty(Data(c))
    requires Follows(u, m.units, t0, PlugT(fs, Data(c)))
    modifies m.Repr(), node.arr, BlockFoot(fs[|fs| - 1].s.block)
    ensures Walking(m, root, fs[..|fs| - 1], node, g)
    ensures fresh(SpineFoot(fs[..|fs| - 1]) + Foot(g) - (SpineFoot(fs) + Foot(c)))
    ensures OthersKept(node, old(node.arr[..]))
    ensures var t := Data(fs[|fs| - 1].s);
            Packed(t) && Data(g) == if drop then DropChild(t, pos) else PutChild(t, pos, Data(c))
    ensures need == Empty(Data(g))
    ensures Follows(u, m.units, t0, PlugT(fs[..|fs| - 1], Data(g)))
    ensures old(m.used) - BlockFoot(fs[|fs| - 1].s.block) <= m.used
  {
    hide Packs, Walks, Matches;
    ghost var gs, last := fs[..|fs| - 1], fs[|fs| - 1];
    Up(m, root, fs, child, c, node);
    ghost var f := PlugOne(last, c);
    PlugOneKids(last, c);
    DropPut(Data(last.s), pos, Data(c));
    need, g := PruneHere(m, root, node, pos, level, drop, gs, f, t0, u);
    FreshUp(SpineFoot(gs), Foot(f), SpineFoot(fs), Foot(c), Foot(g));
  }

  /** Memory between two passes of update_nodes: the subtrie x below the spine has lost the key k. */
  ghost predicate UpdateState(m: Mm, root: Ptr, fs: seq<Frame>, x: Tree, k: Bits, node: Ptr, g: Shape,
                              need: bool, t0: Tree, u: seq<int>, was: seq<Struct>, own: set<object>)
    requires AllSound(fs) && Packed(x) && Get(x, k).Some?
    reads m.Repr(), root.arr, node.arr, SpineFoot(fs), Foot(g)
  {
    UpdateStates(m, root, fs, x, k, node, g, need, t0, u, was, own) == true
  }

  ghost predicate UpdateStates(m: Mm, root: Ptr, fs: seq<Frame>, x: Tree, k: Bits, node: Ptr, g: Shape,
                               need: bool, t0: Tree, u: seq<int>, was: seq<Struct>, own: set<object>)
    requires AllSound(fs) && Packed(x) && Get(x, k).Some?
    reads m.Repr(), root.arr, node.arr, SpineFoot(fs), Foot(g)
  {
    && Walking(m, root, fs, node, g) && own == SpineFoot(fs) + Foot(g) && (fs != [] ==> node.arr in SpineFoot(fs))
    && Data(g) == DeleteT(x, k) && need == Empty(Data(g))
    && Follows(u, m.units, t0, PlugT(fs, Data(g)))
    && OthersKept(root, was)
  }

  /** A node pointer of a walk is in what the walk owns. */
  lemma {:induction false} ReachedOwn(fs: seq<Frame>, node: Ptr)
    requires AllSound(fs) && Reached(fs, node)
    ensures fs != [] ==> node.arr in SpineFoot(fs)
  {
    if fs != [] { InSpine(fs); }
  }

  lemma {:induction false} Updated(m: Mm, root: Ptr, fs: seq<Frame>, x: Tree, k: Bits, node: Ptr, g: Shape,
                                   need: bool, t0: Tree, u: seq<int>, was: seq<Struct>, own: set<object>)
    requires AllSound(fs) && Packed(x) && Get(x, k).Some?
    requires Walking(m, root, fs, node, g) && own == SpineFoot(fs) + Foot(g)
    requires Data(g) == DeleteT(x, k) && need == Empty(Data(g))
    requires Follows(u, m.units, t0, PlugT(fs, Data(g)))
    requires OthersKept(root, was)
    ensures UpdateState(m, root, fs, x, k, node, g, need, t0, u, was, own)
  {
    Here(m, root, fs, node, g);
    ReachedOwn(fs, node);
  }

  /** The first pass of update_nodes. */
  method UpdateFirst(m: Mm, root: Ptr, node: Ptr, pos: nat, level: nat,
                     ghost fs: seq<Frame>, ghost f: Shape, ghost k: Bits, ghost t0: Tree, ghost u: seq<int>,
                     ghost was: seq<Struct>, ghost own: set<object>)
    returns (need: bool, ghost g: Shape, ghost own': set<object>)
    requires AllSound(fs) && Packed(Data(f)) && |k| < STRIDE && Get(Data(f), k).Some? && level == |fs|
    requires Walking(m, root, fs, node, f) && Owning(fs, f, node, own)
    requires pos == Pos(k) && OthersKept(root, was)
    requires Follows(u, m.units, t0, PlugT(fs, Data(f)))
    modifies m.Repr(), root.arr, own
    ensures UpdateState(m, root, fs, Data(f), k, node, g, need, t0, u, was, own') && fresh(own' - own)
    ensures old(m.used) - own <= m.used
  {
    hide Packs, Walks, Matches, UpdateStates;
    ghost var mid, nodeWas := root.arr[..], node.arr[..];
    Placing(m, root, fs, node, f, own);
    need, g := DropPass(m, root, node, pos, level, fs, f, k, t0, u);
    RootKept(root, fs, node, was, mid, nodeWas);
    own' := SpineFoot(fs) + Foot(g);
    Updated(m, root, fs, Data(f), k, node, g, need, t0, u, was, own');
  }

  /** What a later pass finds. */
  lemma {:induction false} PassBegins(m: Mm, root: Ptr, fs: seq<Frame>, x: Tree, k: Bits, child: Ptr, c: Shape,
                                      need: bool, t0: Tree, u: seq<int>, was: seq<Struct>, own: set<object>)
    requires AllSound(fs) && fs != [] && Packed(x) && Get(x, k).Some?
    requires UpdateState(m, root, fs, x, k, child, c, need, t0, u, was, own)
    ensures Walking(m, root, fs, child, c) && own == SpineFoot(fs) + Foot(c) && Packed(Data(c))
    ensures Data(c) == DeleteT(x, k) && need == Empty(Data(c))
    ensures Follows(u, m.units, t0, PlugT(fs, Data(c))) && OthersKept(root, was)
  {
    hide Packs, Walks, Matches;
    Reading(m, root, fs, child, c);
  }

  lemma {:induction false} RootHere(m: Mm, root: Ptr, s: Shape, foot: set<object>)
    requires Clear(m, root, foot) && At(root, s)
    ensures root.arr !in foot + m.Repr() && root.idx < root.arr.Length
  {
  }

  lemma {:induction false} LastBlock(fs: seq<Frame>)
    requires AllSound(fs) && fs != []
    ensures AllSound(fs[..|fs| - 1])
    ensures BlockFoot(fs[|fs| - 1].s.block) <= SpineFoot(fs) && SpineFoot(fs[..|fs| - 1]) <= SpineFoot(fs)
  {
    SpineFootLast(fs);
  }

  lemma {:induction false} PassPlaces(m: Mm, root: Ptr, fs: seq<Frame>, gs: seq<Frame>, child: Ptr, c: Shape,
                                      node: Ptr,
                                      own: set<object>)
    requires AllSound(fs) && fs != [] && gs == fs[..|fs| - 1]
    requires Walking(m, root, fs, child, c) && own == SpineFoot(fs) + Foot(c)
    requires Reached(gs, node)
    ensures root.arr !in own + m.Repr() && root.idx < root.arr.Length
    ensures BlockFoot(fs[|fs| - 1].s.block) <= own
    ensures gs != [] ==> node.arr in own
  {
    hide *;
    Here(m, root, fs, child, c);
    RootHere(m, root, if fs == [] then c else fs[0].s, SpineFoot(fs) + Foot(c));
    LastBlock(fs);
    ReachedOwn(gs, node);
  }

  /** The other passes: y is the subtrie one node further up, j the key there. */
  method UpdatePass(m: Mm, root: Ptr, node: Ptr, pos: nat, level: nat, drop: bool,
                    ghost fs: seq<Frame>, ghost gs: seq<Frame>, ghost x: Tree, ghost k: Bits, ghost j: Bits,
                    ghost child: Ptr, ghost c: Shape,
                    ghost t0: Tree, ghost u: seq<int>, ghost was: seq<Struct>, ghost own: set<object>)
    returns (need: bool, ghost g: Shape, ghost own': set<object>)
    requires AllSound(fs) && AllSound(gs) && Packed(x) && Get(x, k).Some? && level == |fs| - 1 && gs == fs[..level]
    requires UpdateState(m, root, fs, x, k, child, c, drop, t0, u, was, own)
    requires level == 0 ==> node == root
    requires Reached(gs, node) && pos == fs[level].bit < 64
    requires var y := Data(fs[level].s);
             |j| >= STRIDE && k == j[STRIDE..] && pos == Val(j[..STRIDE])
             && Packed(y) && Bit(y.ext, pos) && x == ChildAt(y, pos)
    modifies m.Repr(), root.arr, own
    ensures UpdateState(m, root, gs, Data(fs[level].s), j, node, g, need, t0, u, was, own') && fresh(own' - own)
    ensures old(m.used) - own <= m.used
  {
    hide Packs, Walks, Matches, UpdateStates;
    ghost var mid, nodeWas := root.arr[..], node.arr[..];
    PassBegins(m, root, fs, x, k, child, c, drop, t0, u, was, own);
    PassPlaces(m, root, fs, gs, child, c, node, own);
    need, g := PrunePass(m, root, node, pos, level, drop, fs, child, c, t0, u);
    RootKept(root, gs, node, was, mid, nodeWas);
    own' := SpineFoot(gs) + Foot(g);
    Updated(m, root, gs, Data(fs[level].s), j, node, g, need, t0, u, was, own');
  }

  // ----- update_nodes -----------------------------------------------------------------

  /** Trace i points to the node of frame i, in the block of the node above. */
  ghost predicate Traced(ts: seq<Trace>, root: Ptr, fs: seq<Frame>, i: nat)
    requires AllSound(fs)
  {
    i < |ts| && i < |fs| && ts[i].pos == fs[i].bit && Reached(fs[..i], ts[i].node) && (i == 0 ==> ts[i].node == root)
  }

  ghost predicate Traces(ts: seq<Trace>, root: Ptr, fs: seq<Frame>)
    requires AllSound(fs)
  {
    forall i: nat | i < |fs| :: Traced(ts, root, fs, i)
  }

  /** What the way says about the pass at level i. */
  lemma {:induction false} PassWay(ts: seq<Trace>, root: Ptr, fs: seq<Frame>, f: Tree, key: Bits, i: nat,
                                   hs: seq<Frame>, gs: seq<Frame>)
    requires Chain(fs, f, key) && Traces(ts, root, fs) && i < |fs| < |ts| && hs == fs[..i + 1] && gs == fs[..i]
    ensures AllSound(hs) && |hs| == i + 1 && gs == hs[..i] && 6 * (i + 1) <= |key| && Level(fs, f, i) == Data(hs[i].s)
    ensures Packed(Level(fs, f, i)) && Get(Level(fs, f, i), key[6 * i..]).Some?
    ensures Packed(Level(fs, f, i + 1)) && Get(Level(fs, f, i + 1), key[6 * (i + 1)..]).Some?
    ensures Reached(gs, ts[i].node) && (i == 0 ==> ts[i].node == root) && ts[i].pos == hs[i].bit < 64
    ensures var y, j := Level(fs, f, i), key[6 * i..];
            |j| >= STRIDE && key[6 * (i + 1)..] == j[STRIDE..] && ts[i].pos == Val(j[..STRIDE])
            && Bit(y.ext, ts[i].pos) && Level(fs, f, i + 1) == ChildAt(y, ts[i].pos)
  {
    WayStep(fs, f, key, i);
    ChainGet(fs, f, key, i);
    ChainGet(fs, f, key, i + 1);
    assert Traced(ts, root, fs, i);
  }

  lemma {:induction false} WholeWay(fs: seq<Frame>, f: Tree, key: Bits)
    requires Chain(fs, f, key)
    ensures AllSound(fs) && 6 * |fs| <= |key|
    ensures fs[..|fs|] == fs && Level(fs, f, |fs|) == f && Packed(f) && Get(f, key[6 * |fs|..]).Some?
    ensures |key[6 * |fs|..]| < STRIDE
  {
  }

  /** Memory after the passes down to level i. */
  ghost predicate UpdatedTo(m: Mm, root: Ptr, ts: seq<Trace>, fs: seq<Frame>, f: Tree, key: Bits, i: nat, g: Shape,
                            need: bool, t0: Tree, u: seq<int>, was: seq<Struct>, own: set<object>)
    requires Chain(fs, f, key) && Traces(ts, root, fs) && i <= |fs| < |ts|
    reads m.Repr(), root.arr, ts[i].node.arr, SpineFoot(fs[..i]), Foot(g)
  {
    ChainGet(fs, f, key, i);
    UpdateState(m, root, fs[..i], Level(fs, f, i), key[6 * i..], ts[i].node, g, need, t0, u, was, own)
  }

  /** The pass at level i. */
  method UpdateAt(m: Mm, root: Ptr, t: array<Trace>, i: nat, drop: bool,
                  ghost fs: seq<Frame>, ghost f: Tree, ghost key: Bits, ghost g0: Shape,
                  ghost t0: Tree, ghost u: seq<int>, ghost was: seq<Struct>, ghost own0: set<object>)
    returns (need: bool, ghost g: Shape, ghost own: set<object>)
    requires Chain(fs, f, key) && Traces(t[..], root, fs) && i < |fs| < t.Length
    requires UpdatedTo(m, root, t[..], fs, f, key, i + 1, g0, drop, t0, u, was, own0)
    requires t !in m.Repr() + {root.arr} + own0
    modifies m.Repr(), root.arr, own0
    ensures t[..] == old(t[..])
    ensures UpdatedTo(m, root, t[..], fs, f, key, i, g, need, t0, u, was, own)
    ensures fresh(own - own0)
    ensures old(m.used) - own0 <= m.used
  {
    hide Packs, Walks, Matches, UpdateStates, Chain;
    ghost var ts, hs, gs := t[..], fs[..i + 1], fs[..i];
    PassWay(ts, root, fs, f, key, i, hs, gs);
    need, g, own := UpdatePass(m, root, t[i].node, t[i].pos, i, drop, hs, gs, Level(fs, f, i + 1),
                               key[6 * (i + 1)..], key[6 * i..],
                               ts[i + 1].node, g0, t0, u, was, own0);
    assert t[..] == ts;
  }

  method UpdateNodes(m: Mm, t: array<Trace>, total: nat, root: Ptr, ghost fs: seq<Frame>, ghost f: Shape,
                     ghost key: Bits,
                     ghost t0: Tree, ghost u: seq<int>, ghost was: seq<Struct>, ghost own0: set<object>)
    returns (need: bool, ghost g: Shape, ghost own: set<object>)
    requires Chain(fs, Data(f), key) && Traces(t[..], root, fs) && total == |fs| < t.Length
    requires Walking(m, root, fs, t[total].node, f) && Owning(fs, f, t[total].node, own0)
    requires t[total].pos == Pos(key[6 * total..]) && OthersKept(root, was)
    requires Follows(u, m.units, t0, PlugT(fs, Data(f)))
    requires t !in m.Repr() + {root.arr} + own0
    modifies m.Repr(), root.arr, own0
    ensures UpdatedTo(m, root, t[..], fs, Data(f), key, 0, g, need, t0, u, was, own)
    ensures t[..] == old(t[..])
    ensures fresh(own - own0)
    ensures old(m.used) - own0 <= m.used
  {
    hide *;
    WholeWay(fs, Data(f), key);
    ghost var ts := t[..];
    need, g, own := UpdateTop(m, root, t, total, fs, f, key, t0, u, was, own0);
    var i := total;
    while i > 0
      invariant 0 <= i <= total && t[..] == ts
      invariant UpdatedTo(m, root, t[..], fs, Data(f), key, i, g, need, t0, u, was, own)
      invariant fresh(own - own0) && old(m.used) - own0 <= m.used
    {
      i := i - 1;
      ghost var mine := own;
      need, g, own := UpdateAt(m, root, t, i, need, fs, Data(f), key, g, t0, u, was, own);
      forall o | o in old(m.used) && o !in own0 ensures o in m.used {
        assert o !in mine - own0;
      }
    }
  }

  method UpdateTop(m: Mm, root: Ptr, t: array<Trace>, total: nat, ghost fs: seq<Frame>, ghost f: Shape,
                   ghost key: Bits,
                   ghost t0: Tree, ghost u: seq<int>, ghost was: seq<Struct>, ghost own0: set<object>)
    returns (need: bool, ghost g: Shape, ghost own: set<object>)
    requires Chain(fs, Data(f), key) && Traces(t[..], root, fs) && total == |fs| < t.Length
    requires Walking(m, root, fs, t[total].node, f) && Owning(fs, f, t[total].node, own0)
    requires t[total].pos == Pos(key[6 * total..]) && OthersKept(root, was)
    requires Follows(u, m.units, t0, PlugT(fs, Data(f)))
    requires t !in m.Repr() + {root.arr} + own0
    modifies m.Repr(), root.arr, own0
    ensures UpdatedTo(m, root, t[..], fs, Data(f), key, total, g, need, t0, u, was, own)
    ensures t[..] == old(t[..])
    ensures fresh(own - own0)
    ensures old(m.used) - own0 <= m.used
  {
    hide Packs, Walks, Matches, UpdateStates, Chain;
    WholeWay(fs, Data(f), key);
    ghost var ts := t[..];
    need, g, own := UpdateFirst(m, root, t[total].node, t[total].pos, total, fs, f, key[6 * total..], t0, u, was,
                                own0);
    assert t[..] == ts;
  }

  // ----- the way down, and the delete -------------------------------------------------

  /** k is what is left of the key below the frames fs of the trie t0. */
  ghost predicate Descending(fs: seq<Frame>, t: Tree, k: Bits, key: Bits, t0: Tree) {
    && Way(fs, t, key) && Packed(t0) && |key| <= MAX_KEY && k == key[6 * |fs|..]
    && Get(t, k) == Get(t0, key) && Get(t0, key).Some?
    && Level(fs, t, 0) == t0 && PlugT(fs, t) == t0
  }

  lemma {:induction false} DescendStep(fs: seq<Frame>, f: Shape, k: Bits, key: Bits, t0: Tree, p: nat, c: Tree)
    requires Descending(fs, Data(f), k, key, t0) && |k| >= STRIDE
    requires p == Val(k[..STRIDE]) < 64 && Sound(Frame(f, p)) && c == ChildAt(Data(f), p)
    ensures Descending(fs + [Frame(f, p)], c, k[STRIDE..], key, t0)
  {
    WayPush(fs, f, key, p, c);
    var gs := fs + [Frame(f, p)];
    assert gs[..|gs| - 1] == fs;
    RankBounds(f.ext, p);
    assert PutChild(Data(f), p, c) == Data(f);
    assert key[6 * |gs|..] == key[6 * |fs|..][STRIDE..];
    assert Level(gs, c, 0) == Level(fs, Data(f), 0);
  }

  /** The trace so far leads to `node`. */
  ghost predicate DeleteState(root: Ptr, m: Mm, node: Ptr, k: Bits, i: nat, ts: seq<Trace>,
                              fs: seq<Frame>, f: Shape, key: Bits, t0: Tree, own: set<object>)
    requires AllSound(fs)
    reads m.Repr(), root.arr, node.arr, SpineFoot(fs), Foot(f)
  {
    && Descending(fs, Data(f), k, key, t0) && i == |fs|
    && Walking(m, root, fs, node, f) && Owning(fs, f, node, own)
    && |key| < 6 * |ts| && Traces(ts, root, fs)
  }

  lemma {:induction false} TracePush(ts: seq<Trace>, root: Ptr, fs: seq<Frame>, node: Ptr, fr: Frame)
    requires AllSound(fs) && Sound(fr) && |fs| < |ts| && Traces(ts, root, fs)
    requires Reached(fs, node) && (fs == [] ==> node == root)
    ensures AllSound(fs + [fr])
    ensures Traces(ts[|fs| := Trace(node, fr.bit)], root, fs + [fr])
  {
    var gs, us := fs + [fr], ts[|fs| := Trace(node, fr.bit)];
    forall k: nat | k < |gs| ensures Traced(us, root, gs, k) {
      if k < |fs| {
        assert Traced(ts, root, fs, k);
        assert gs[..k] == fs[..k];
      } else {
        assert gs[..k] == fs;
      }
    }
  }

  /** What a pass of the way down finds. */
  lemma {:induction false} DescendBegins(root: Ptr, m: Mm, node: Ptr, k: Bits, i: nat, ts: seq<Trace>,
                                         fs: seq<Frame>, f: Shape, key: Bits, t0: Tree, own: set<object>)
    requires AllSound(fs) && DeleteState(root, m, node, k, i, ts, fs, f, key, t0, own)
    ensures Descending(fs, Data(f), k, key, t0) && i == |fs| < |ts| && i + 1 < MAX_LEVEL
    ensures Walking(m, root, fs, node, f) && own == SpineFoot(fs) + Foot(f)
    ensures Packed(Data(f)) && At(node, f)
    ensures node.arr in {root.arr} + own
  {
    Here(m, root, fs, node, f);
    Reading(m, root, fs, node, f);
  }

  lemma {:induction false} DescendKey(fs: seq<Frame>, t: Tree, k: Bits, key: Bits, t0: Tree)
    requires Descending(fs, t, k, key, t0) && |k| >= STRIDE
    ensures Val(k[..STRIDE]) < 64 && Bit(t.ext, Val(k[..STRIDE]))
  {
    StrideBound(k);
  }

  lemma {:induction false} DescendEnds(root: Ptr, m: Mm, node: Ptr, k: Bits, i: nat, ts: seq<Trace>,
                                       fs: seq<Frame>, f: Shape, key: Bits, t0: Tree, own: set<object>, p: nat,
                                       child: Ptr, gs: seq<Frame>, c: Shape)
    requires AllSound(fs) && DeleteState(root, m, node, k, i, ts, fs, f, key, t0, own) && |k| >= STRIDE
    requires p == Val(k[..STRIDE]) && Sound(Frame(f, p)) && gs == fs + [Frame(f, p)] && AllSound(gs)
    requires Packed(Data(f)) && Data(c) == ChildAt(Data(f), p) && Walking(m, root, gs, child, c)
    requires own == SpineFoot(gs) + Foot(c) && child.arr in SpineFoot(gs) && i < |ts|
    ensures DeleteState(root, m, child, k[STRIDE..], i + 1, ts[i := Trace(node, p)], gs, c, key, t0, own)
  {
    hide Walks, Matches, Packs, SpineFoot, Foot, KidsFoot, Data, Way, PlugT;
    Here(m, root, fs, node, f);
    StrideBound(k);
    DescendStep(fs, f, k, key, t0, p, Data(c));
    TracePush(ts, root, fs, node, Frame(f, p));
  }

  /** trace_node[i] = {node, pos}: a local array, which no trie shares. */
  method Record(root: Ptr, m: Mm, t: array<Trace>, i: nat, node: Ptr, pos: nat, child: Ptr, ghost k: Bits,
                ghost gs: seq<Frame>, ghost c: Shape, ghost key: Bits, ghost t0: Tree, ghost own: set<object>)
    requires AllSound(gs) && i < t.Length
    requires DeleteState(root, m, child, k, i + 1, t[..][i := Trace(node, pos)], gs, c, key, t0, own)
    requires t !in m.Repr() + {root.arr} + own
    modifies t
    ensures DeleteState(root, m, child, k, i + 1, t[..], gs, c, key, t0, own)
    ensures t[..] == old(t[..])[i := Trace(node, pos)]
  {
    hide Descending, Walks, Traces;
    ghost var ts := t[..];
    DescendBegins(root, m, child, k, i + 1, ts[i := Trace(node, pos)], gs, c, key, t0, own);
    t[i] := Trace(node, pos);
    assert t[..] == ts[i := Trace(node, pos)];
  }

  /** One pass of the way down. */
  method DescendPass(root: Ptr, m: Mm, t: array<Trace>, i: nat, node: Ptr, stride: nat, ghost k: Bits,
                     ghost fs: seq<Frame>, ghost f: Shape, ghost key: Bits, ghost t0: Tree, ghost own: set<object>)
    returns (child: Ptr, ghost gs: seq<Frame>, ghost c: Shape)
    requires AllSound(fs) && DeleteState(root, m, node, k, i, t[..], fs, f, key, t0, own) && |k| >= STRIDE
        && stride == Val(k[..STRIDE])
    requires t !in m.Repr() + {root.arr} + own
    modifies t
    ensures AllSound(gs)
    ensures DeleteState(root, m, child, k[STRIDE..], i + 1, t[..], gs, c, key, t0, own)
  {
    hide *;
    DescendBegins(root, m, node, k, i, t[..], fs, f, key, t0, own);
    DescendKey(fs, Data(f), k, key, t0);
    ghost var g;
    SpineAlloc(fs);
    FootAlloc(f);
    ReprAlloc(m);
    child, g, gs, c := ThroughOld(root, m, node, stride, i, fs, f);
    DescendEnds(root, m, node, k, i, t[..], fs, f, key, t0, own, stride, child, gs, c);
    Record(root, m, t, i, node, stride, child, k[STRIDE..], gs, c, key, t0, own);
  }

  lemma {:induction false} DeleteStarts(root: Ptr, m: Mm, key: Bits, ts: seq<Trace>, s: Shape)
    requires Owned(m, root, s, 0) && Packed(Data(s)) && |key| <= MAX_KEY && |key| < 6 * |ts|
    requires Get(Data(s), key).Some?
    ensures AllSound([]) && root.arr !in m.Repr() + Foot(s)
    ensures DeleteState(root, m, root, key, 0, ts, [], s, key, Data(s), Foot(s))
  {
    hide Packs, Walks, Matches, Owns;
    Begin(m, root, s);
    Here(m, root, [], root, s);
    assert key[6 * 0..] == key;
  }

  lemma {:induction false} EndKey(fs: seq<Frame>, t: Tree, k: Bits, key: Bits, t0: Tree)
    requires Descending(fs, t, k, key, t0) && |k| < STRIDE
    ensures Chain(fs, t, key) && 6 * |fs| <= |key| && k == key[6 * |fs|..]
    ensures Packed(t) && Bit(t.inl, Pos(k)) && Packed(t0) && Get(t0, key) == Some(RuleAt(t, Pos(k)))
    ensures Level(fs, t, 0) == t0 && PlugT(fs, t) == t0
  {
    hide PlugT, Packs, Step;
  }

  /** At the node where the key ends. */
  lemma {:induction false} DeleteEnds(root: Ptr, m: Mm, node: Ptr, k: Bits, i: nat, ts: seq<Trace>, pos: nat,
                                      fs: seq<Frame>, f: Shape, key: Bits, t0: Tree, own: set<object>)
    requires AllSound(fs) && DeleteState(root, m, node, k, i, ts, fs, f, key, t0, own) && |k| < STRIDE
        && pos == Pos(k)
    ensures Chain(fs, Data(f), key) && i == |fs| < |ts| && Traces(ts[i := Trace(node, pos)], root, fs)
    ensures Walking(m, root, fs, node, f) && Owning(fs, f, node, own)
    ensures Packed(Data(f)) && Bit(f.inl, pos) && Packed(t0) && Get(t0, key) == Some(RuleAt(Data(f), pos))
    ensures 6 * i <= |key| && pos == Pos(key[6 * i..]) && Level(fs, Data(f), 0) == t0 && PlugT(fs, Data(f)) == t0
  {
    hide Packs, Walks, Matches, PlugT, Chain, Pos, Get, Way;
    EndKey(fs, Data(f), k, key, t0);
    EndTrace(ts, root, fs, Trace(node, pos));
  }

  lemma {:induction false} EndTrace(ts: seq<Trace>, root: Ptr, fs: seq<Frame>, x: Trace)
    requires AllSound(fs) && Traces(ts, root, fs) && |fs| < |ts|
    ensures Traces(ts[|fs| := x], root, fs)
  {
    var us := ts[|fs| := x];
    forall k: nat | k < |fs| ensures Traced(us, root, fs, k) {
      assert Traced(ts, root, fs, k);
    }
  }

  /** *pointer_to_nhi(node, pos). */
  method ReadRule(node: Ptr, pos: nat, ghost s: Shape, ghost d: nat) returns (nhi: Nhi)
    requires At(node, s) && Match(s, d) && Packed(Data(s)) && Bit(s.inl, pos)
    ensures nhi == RuleAt(Data(s), pos)
  {
    RankBounds(s.inl, pos);
    nhi := node.arr[node.idx].block.rules[CountOnes(node.arr[node.idx].internal, pos)];
  }

  /** The report and the last entry of the trace. */
  method Report(root: Ptr, m: Mm, t: array<Trace>, i: nat, node: Ptr, pos: nat, notify: bool,
                ghost fs: seq<Frame>, ghost f: Shape, ghost own: set<object>)
    returns (calls: seq<Nhi>)
    requires AllSound(fs) && Walking(m, root, fs, node, f) && i < t.Length
    requires own == SpineFoot(fs) + Foot(f) && node.arr in {root.arr} + own
    requires At(node, f) && Match(f, i) && Packed(Data(f)) && Bit(f.inl, pos)
    requires t !in m.Repr() + {root.arr} + own
    modifies t
    ensures t[..] == old(t[..])[i := Trace(node, pos)] && t[i] == Trace(node, pos)
    ensures Walking(m, root, fs, node, f)
    ensures calls == if notify then [RuleAt(Data(f), pos)] else []
  {
    hide *;
    SpineAlloc(fs);
    FootAlloc(f);
    ReprAlloc(m);
    calls := [];
    if notify {
      var nhi := ReadRule(node, pos, f, i);
      calls := [nhi];
    }
    t[i] := Trace(node, pos);
  }

  lemma {:induction false} FollowsNothing(u: seq<int>, t: Tree)
    ensures Follows(u, u, t, t)
  {
  }

  /** What is left when update_nodes is done. */
  lemma {:induction false} DeleteDone(m: Mm, root: Ptr, ts: seq<Trace>, fs: seq<Frame>, f: Tree, key: Bits, g: Shape,
                                      need: bool, t0: Tree, u: seq<int>, was: seq<Struct>, own: set<object>)
    requires Chain(fs, f, key) && Traces(ts, root, fs) && |fs| < |ts| && Level(fs, f, 0) == t0
    requires fs == [] ==> ts[0].node == root
    requires UpdatedTo(m, root, ts, fs, f, key, 0, g, need, t0, u, was, own)
    ensures Owned(m, root, g, 0) && own == Foot(g) && OthersKept(root, was)
    ensures Packed(t0) && Get(t0, key).Some? && Data(g) == DeleteT(t0, key) && need == Empty(Data(g))
    ensures Follows(u, m.units, t0, Data(g))
  {
    ChainGet(fs, f, key, 0);
    assert key[6 * 0..] == key && fs[..0] == [];
    assert SpineFoot([]) == {};
    Here(m, root, [], ts[0].node, g);
  }

  /** The last part: the rule is reported, and the trace is worked off. */
  method DeleteLast(root: Ptr, m: Mm, t: array<Trace>, i: nat, node: Ptr, pos: nat, notify: bool, ghost k: Bits,
                    ghost fs: seq<Frame>, ghost f: Shape, ghost key: Bits, ghost t0: Tree, ghost own: set<object>)
    returns (need: bool, calls: seq<Nhi>, ghost s': Shape)
    requires AllSound(fs) && DeleteState(root, m, node, k, i, t[..], fs, f, key, t0, own) && |k| < STRIDE
        && pos == Pos(k)
    requires t !in m.Repr() + {root.arr} + own
    modifies t, m.Repr(), root.arr, own
    ensures Owned(m, root, s', 0) && OthersKept(root, old(root.arr[..])) && fresh(Foot(s') - own)
    ensures Packed(t0) && Get(t0, key).Some? && Data(s') == DeleteT(t0, key) && need == Empty(Data(s'))
    ensures Follows(old(m.units), m.units, t0, Data(s'))
    ensures calls == if notify then [Get(t0, key).value] else []
    ensures old(m.used) - own <= m.used
  {
    hide *;
    ghost var ts, u, was := t[..], m.units, root.arr[..];
    DeleteEnds(root, m, node, k, i, ts, pos, fs, f, key, t0, own);
    DescendBegins(root, m, node, k, i, ts, fs, f, key, t0, own);
    Here(m, root, fs, node, f);
    calls := Report(root, m, t, i, node, pos, notify, fs, f, own);
    FollowsNothing(u, t0);
    SameRoot(root, was);
    ghost var own';
    need, s', own' := UpdateNodes(m, t, i, root, fs, f, key, t0, u, was, own);
    DeleteDone(m, root, t[..], fs, Data(f), key, s', need, t0, u, was, own');
  }
}
