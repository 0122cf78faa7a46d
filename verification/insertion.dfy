/** Insert into a bitmap trie: what the loops of lib/bitmap_v4.c and lib/bitmap_v6.c do at each node.
    The key is what is left of the prefix, as bits; how it is kept in machine words differs. */
module Insertion {
  import opened Words
  import opened Addresses
  import opened Trees
  import opened TreeLaws
  import opened Memory
  import opened Shapes
  import opened MbNode
  import opened Usage
  import opened Spine
  import opened Walk

  /** The ledger books a change of the node at the end of the spine. */
  lemma {:induction false} Booked(fs: seq<Frame>, u: seq<int>, v: seq<int>, w: seq<int>, t0: Tree, t: Tree, r: Tree)
    requires AllSound(fs) && Packed(t) && Packed(r)
    requires Follows(u, v, t0, PlugT(fs, t))
    requires Charged(v, w, |fs|, NodeUnits(r) - NodeUnits(t))
    requires forall d: nat | d > 0 :: Units(r, d) == Units(t, d)
    ensures Follows(u, w, t0, PlugT(fs, r)) == true
  {
    ChargedFollows(fs, v, w, t, r);
    FollowsTwice(u, v, w, t0, PlugT(fs, t), PlugT(fs, r));
  }

  lemma {:induction false} AddChildUnits(t: Tree, p: nat)
    requires Packed(t) && p < 64 && !Bit(t.ext, p)
    ensures forall d: nat | d > 0 :: Units(AddChild(t, p, EMPTY), d) == Units(t, d)
  {
    RankSet(t.ext, p, p);
    RankBounds(t.ext, p);
    forall d: nat | d > 0 ensures Units(AddChild(t, p, EMPTY), d) == Units(t, d) {
      KidsUnitsInsert(t.kids, CountOnes(SetBit(t.ext, p), p), EMPTY, d - 1);
      EmptyUnits(d - 1);
    }
  }

  /** The longest keys, those of IPv6. */
  const MAX_KEY: nat := 128

  /** What is left to insert below the spine gives the same trie as the whole insertion into t0. */
  ghost predicate Inserting(fs: seq<Frame>, t: Tree, k: Bits, nhi: Nhi, t0: Tree, key: Bits) {
    Inserts(fs, t, k, nhi, t0, key) == true
  }

  ghost predicate Inserts(fs: seq<Frame>, t: Tree, k: Bits, nhi: Nhi, t0: Tree, key: Bits) {
    && AllSound(fs) && Packed(t) && Packed(t0) && Packed(PlugT(fs, t))
    && |k| + 6 * |fs| == |key| <= MAX_KEY && Path(fs) + k == key
    && InsertT(PlugT(fs, t), key, nhi) == InsertT(t0, key, nhi)
    && Get(t, k) == Get(t0, key)
  }

  lemma {:induction false} InsertBegins(t: Tree, k: Bits, nhi: Nhi)
    requires Packed(t) && |k| <= MAX_KEY
    ensures Inserting([], t, k, nhi, t, k)
  {
    assert Path([]) + k == k;
  }

  /** Making room for the child on the way does not change what the insertion gives. */
  lemma {:induction false} InsertGrows(fs: seq<Frame>, t: Tree, k: Bits, nhi: Nhi, t0: Tree, key: Bits, p: nat)
    requires Inserting(fs, t, k, nhi, t0, key) && |k| >= STRIDE
    requires p == Val(k[..STRIDE]) < 64
    ensures Inserting(fs, WithChild(t, p), k, nhi, t0, key)
  {
    var u := WithChild(t, p);
    assert WithChild(u, p) == u;
    assert InsertT(u, k, nhi) == InsertT(t, k, nhi);
    InsertPlug(fs, t, k, nhi);
    InsertPlug(fs, u, k, nhi);
    WithChildGet(t, p, k);
  }

  lemma {:induction false} InsertDescends(fs: seq<Frame>, f: Shape, k: Bits, nhi: Nhi, t0: Tree, key: Bits, p: nat,
                                          c: Shape)
    requires Inserting(fs, Data(f), k, nhi, t0, key) && |k| >= STRIDE
    requires p == Val(k[..STRIDE]) < 64 && Bit(f.ext, p) && Sound(Frame(f, p))
    requires Data(c) == ChildAt(Data(f), p)
    ensures Inserting(fs + [Frame(f, p)], Data(c), k[STRIDE..], nhi, t0, key)
    ensures PlugT(fs + [Frame(f, p)], Data(c)) == PlugT(fs, Data(f))
  {
    var gs := fs + [Frame(f, p)];
    assert gs[..|gs| - 1] == fs;
    RankBounds(f.ext, p);
    assert PutChild(Data(f), p, Data(c)) == Data(f);
    PathStep(gs, k[STRIDE..]);
    ToBitsVal(k[..STRIDE]);
    assert k == k[..STRIDE] + k[STRIDE..];
  }

  /** The last step: the rule is set or replaced in its node. */
  lemma {:induction false} InsertEnds(fs: seq<Frame>, t: Tree, k: Bits, nhi: Nhi, t0: Tree, key: Bits)
    requires Inserting(fs, t, k, nhi, t0, key)
    ensures PlugT(fs, InsertT(t, k, nhi)) == InsertT(t0, key, nhi)
  {
    InsertPlug(fs, t, k, nhi);
  }

  /** What a key that ends in a node finds there. */
  lemma {:induction false} HereKey(node: Ptr, f: Shape, k: Bits)
    requires At(node, f) && Packed(Data(f)) && |k| < STRIDE
    ensures node.idx < node.arr.Length && Pos(k) < 63
    ensures TestBit(node.arr[node.idx].internal, Pos(k)) <==> Bit(f.inl, Pos(k))
    ensures Get(Data(f), k).Some? <==> Bit(f.inl, Pos(k))
    ensures forall nhi: Nhi :: InsertT(Data(f), k, nhi) ==
              if Bit(f.inl, Pos(k)) then PutRule(Data(f), Pos(k), nhi) else AddRule(Data(f), Pos(k), nhi)
  {
    PosSmall(k);
  }

  lemma {:induction false} HerePlaces(m: Mm, node: Ptr, f: Shape, level: nat)
    requires Owned(m, node, f, level)
    ensures RulesArr(f.block) <= BlockFoot(f.block)
    ensures node.arr !in BlockFoot(f.block) && m !in BlockFoot(f.block)
  {
    assert m in m.Repr();
  }

  lemma {:induction false} NoCharge(u: seq<int>, level: nat, delta: int)
    requires delta == 0
    ensures Charged(u, u, level, delta)
  {
  }

  /** The last step of the loop: the prefix ends in this node. */
  method InsertHere(root: Ptr, m: Mm, node: Ptr, pos: nat, level: nat, nhi: Nhi,
                    ghost fs: seq<Frame>, ghost f: Shape, ghost k: Bits)
    returns (r: int, ghost g: Shape)
    requires AllSound(fs) && Walking(m, root, fs, node, f) && level == |fs| && Packed(Data(f))
    requires |k| < STRIDE && pos == Pos(k)
    modifies m.Repr(), node.arr, BlockFoot(f.block)
    ensures Walking(m, root, fs, node, g) && fresh(Foot(g) - Foot(f)) && OthersKept(node, old(node.arr[..]))
    ensures Data(g) == InsertT(Data(f), k, nhi)
    ensures r == if Get(Data(f), k).Some? then 1 else 0
    ensures Charged(old(m.units), m.units, level, NodeUnits(Data(g)) - NodeUnits(Data(f)))
    ensures old(m.used) - BlockFoot(f.block) <= m.used
  {
    hide *;
    Reading(m, root, fs, node, f);
    HereKey(node, f, k);
    Here(m, root, fs, node, f);
    HerePlaces(m, node, f, |fs|);
    ghost var nodeWas := node.arr[..];
    if TestBit(node.arr[node.idx].internal, pos) {
      g := PutRuleHere(m, root, node, pos, level, nhi, fs, f);
      SameOwn(Foot(g), Foot(f));
      SameRoot(node, nodeWas);
      NoCharge(m.units, level, NodeUnits(Data(g)) - NodeUnits(Data(f)));
      r := 1;
    } else {
      g := AddRuleHere(m, root, node, pos, level, nhi, fs, f);
      r := 0;
    }
  }

  /** What a key that goes on finds in a node. */
  lemma {:induction false} HereChild(node: Ptr, f: Shape, p: nat)
    requires At(node, f) && Packed(Data(f)) && p < 64
    ensures node.idx < node.arr.Length
    ensures TestBit(node.arr[node.idx].external, p) <==> Bit(f.ext, p)
    ensures WithChild(Data(f), p) == if Bit(f.ext, p) then Data(f) else AddChild(Data(f), p, EMPTY)
  {
  }

  lemma {:induction false} SameRoot(root: Ptr, was: seq<Struct>)
    requires root.arr[..] == was
    ensures OthersKept(root, was)
  {
  }

  lemma {:induction false} SameOwn(a: set<object>, b: set<object>)
    requires a == b
    ensures a - b == {}
  {
  }

  /** The other steps: to the child of this node, which is made if it is not there. */
  method InsertThrough(root: Ptr, m: Mm, node: Ptr, pos: nat, level: nat, ghost fs: seq<Frame>, ghost f: Shape)
    returns (child: Ptr, ghost g: Shape, ghost gs: seq<Frame>, ghost c: Shape)
    requires AllSound(fs) && Walking(m, root, fs, node, f) && level == |fs| && Packed(Data(f))
    requires pos < 64 && level + 1 < MAX_LEVEL
    modifies m.Repr(), node.arr, BlockFoot(f.block)
    ensures Sound(Frame(g, pos)) && gs == fs + [Frame(g, pos)] && AllSound(gs)
    ensures Data(g) == WithChild(Data(f), pos) && Data(c) == ChildAt(Data(g), pos)
    ensures Walking(m, root, gs, child, c)
    ensures fresh(SpineFoot(gs) + Foot(c) - (SpineFoot(fs) + Foot(f))) && child.arr in SpineFoot(gs)
    ensures OthersKept(node, old(node.arr[..]))
    ensures Charged(old(m.units), m.units, level, NodeUnits(Data(g)) - NodeUnits(Data(f)))
    ensures old(m.used) - BlockFoot(f.block) <= m.used
  {
    hide *;
    Reading(m, root, fs, node, f);
    HereChild(node, f, pos);
    Here(m, root, fs, node, f);
    HerePlaces(m, node, f, |fs|);
    SameRoot(node, node.arr[..]);
    if TestBit(node.arr[node.idx].external, pos) {
      child, g, gs, c := ThroughOld(root, m, node, pos, level, fs, f);
      SameOwn(SpineFoot(gs) + Foot(c), SpineFoot(fs) + Foot(f));
    } else {
      child, g, gs, c := ThroughNew(root, m, node, pos, level, fs, f);
    }
  }

  method ThroughNew(root: Ptr, m: Mm, node: Ptr, pos: nat, level: nat, ghost fs: seq<Frame>, ghost f: Shape)
    returns (child: Ptr, ghost g: Shape, ghost gs: seq<Frame>, ghost c: Shape)
    requires AllSound(fs) && Walking(m, root, fs, node, f) && level == |fs| && Packed(Data(f))
    requires pos < 64 && level + 1 < MAX_LEVEL && !Bit(f.ext, pos)
    modifies m.Repr(), node.arr, BlockFoot(f.block)
    ensures Sound(Frame(g, pos)) && gs == fs + [Frame(g, pos)] && AllSound(gs)
    ensures Data(g) == AddChild(Data(f), pos, EMPTY) && Data(c) == ChildAt(Data(g), pos)
    ensures Walking(m, root, gs, child, c)
    ensures fresh(SpineFoot(gs) + Foot(c) - (SpineFoot(fs) + Foot(f))) && child.arr in SpineFoot(gs)
    ensures OthersKept(node, old(node.arr[..]))
    ensures Charged(old(m.units), m.units, level, NodeUnits(Data(g)) - NodeUnits(Data(f)))
    ensures old(m.used) - BlockFoot(f.block) <= m.used
  {
    hide Packs, Walks, Matches, Owns, SpineFoot, Foot, KidsFoot, Data;
    RankSet(f.ext, pos, pos);
    child, g := AddChildHere(m, root, node, pos, level, fs, f);
    ghost var p;
    gs, p, c := Down(m, root, fs, node, g, pos);
    InSpine(gs);
  }

  method ThroughOld(root: Ptr, m: Mm, node: Ptr, pos: nat, level: nat, ghost fs: seq<Frame>, ghost f: Shape)
    returns (child: Ptr, ghost g: Shape, ghost gs: seq<Frame>, ghost c: Shape)
    requires AllSound(fs) && Walking(m, root, fs, node, f) && level == |fs| && Packed(Data(f))
    requires pos < 64 && level + 1 < MAX_LEVEL && Bit(f.ext, pos)
    ensures g == f && Sound(Frame(g, pos)) && gs == fs + [Frame(g, pos)] && AllSound(gs)
    ensures Data(c) == ChildAt(Data(g), pos)
    ensures Walking(m, root, gs, child, c)
    ensures SpineFoot(gs) + Foot(c) == SpineFoot(fs) + Foot(f) && child.arr in SpineFoot(gs)
    ensures Charged(m.units, m.units, level, NodeUnits(Data(g)) - NodeUnits(Data(f)))
  {
    hide Packs, Walks, Matches, Owns, SpineFoot, KidsFoot;
    Here(m, root, fs, node, f);
    ghost var p;
    g := f;
    gs, p, c := Down(m, root, fs, node, f, pos);
    child := Ptr(node.arr[node.idx].block.kids, CountOnes(node.arr[node.idx].external, pos));
    InSpine(gs);
  }

  /** What the walk owns. */
  ghost predicate Owning(fs: seq<Frame>, f: Shape, node: Ptr, own: set<object>)
    requires AllSound(fs)
  {
    own == SpineFoot(fs) + Foot(f) && (fs != [] ==> node.arr in own)
  }

  lemma {:induction false} OwnIs(fs: seq<Frame>, f: Shape, node: Ptr, own: set<object>)
    requires AllSound(fs) && Owning(fs, f, node, own)
    ensures own == SpineFoot(fs) + Foot(f) && BlockFoot(f.block) <= own
  {
  }

  lemma {:induction false} OwnOf(fs: seq<Frame>, f: Shape, node: Ptr, own: set<object>)
    requires AllSound(fs) && own == SpineFoot(fs) + Foot(f) && node.arr in SpineFoot(fs)
    ensures Owning(fs, f, node, own)
  {
  }

  lemma {:induction false} StepKey(fs: seq<Frame>, t: Tree, k: Bits, nhi: Nhi, t0: Tree, key: Bits)
    requires Inserting(fs, t, k, nhi, t0, key) && |k| >= STRIDE
    ensures Packed(t) && |fs| + 1 < MAX_LEVEL && Val(k[..STRIDE]) < 64
    ensures Bit(WithChild(t, Val(k[..STRIDE])).ext, Val(k[..STRIDE])) && Packed(WithChild(t, Val(k[..STRIDE])))
  {
    StrideBound(k);
  }

  lemma {:induction false} LastKey(fs: seq<Frame>, t: Tree, k: Bits, nhi: Nhi, t0: Tree, key: Bits)
    requires Inserting(fs, t, k, nhi, t0, key)
    ensures Packed(t) && Packed(t0) && Get(t, k) == Get(t0, key) && Packed(InsertT(t, k, nhi))
  {
  }

  /** One pass of the loop. */
  method InsertStep(root: Ptr, m: Mm, node: Ptr, stride: nat, level: nat, ghost k: Bits, ghost nhi: Nhi,
                    ghost fs: seq<Frame>, ghost f: Shape, ghost t0: Tree, ghost key: Bits, ghost u: seq<int>,
                    ghost own: set<object>)
    returns (child: Ptr, ghost gs: seq<Frame>, ghost c: Shape, ghost own': set<object>)
    requires AllSound(fs) && Walking(m, root, fs, node, f) && level == |fs| && Owning(fs, f, node, own)
    requires Inserting(fs, Data(f), k, nhi, t0, key) && |k| >= STRIDE && stride == Val(k[..STRIDE])
    requires Follows(u, m.units, t0, PlugT(fs, Data(f)))
    modifies m.Repr(), node.arr, BlockFoot(f.block)
    ensures AllSound(gs) && Walking(m, root, gs, child, c) && level + 1 == |gs| && Owning(gs, c, child, own')
    ensures Inserting(gs, Data(c), k[STRIDE..], nhi, t0, key)
    ensures Follows(u, m.units, t0, PlugT(gs, Data(c)))
    ensures fresh(own' - own) && OthersKept(node, old(node.arr[..]))
    ensures old(m.used) - own <= m.used
  {
    hide *;
    ghost var t, v := Data(f), m.units;
    StepKey(fs, t, k, nhi, t0, key);
    OwnIs(fs, f, node, own);
    ghost var g;
    child, g, gs, c := InsertThrough(root, m, node, stride, level, fs, f);
    GrownBooked(fs, u, v, m.units, t0, t, stride);
    InsertGrows(fs, t, k, nhi, t0, key, stride);
    InsertDescends(fs, g, k, nhi, t0, key, stride, c);
    own' := SpineFoot(gs) + Foot(c);
    OwnOf(gs, c, child, own');
  }

  /** The last pass. */
  method InsertLast(root: Ptr, m: Mm, node: Ptr, pos: nat, level: nat, nhi: Nhi, ghost k: Bits,
                    ghost fs: seq<Frame>, ghost f: Shape, ghost t0: Tree, ghost key: Bits, ghost u: seq<int>,
                    ghost own: set<object>)
    returns (r: int, ghost s': Shape, ghost own': set<object>)
    requires AllSound(fs) && Walking(m, root, fs, node, f) && level == |fs| && Owning(fs, f, node, own)
    requires Inserting(fs, Data(f), k, nhi, t0, key) && |k| < STRIDE && pos == Pos(k) && Packed(t0)
    requires Follows(u, m.units, t0, PlugT(fs, Data(f)))
    modifies m.Repr(), node.arr, BlockFoot(f.block)
    ensures Owned(m, root, s', 0)
    ensures Data(s') == InsertT(t0, key, nhi)
    ensures r == if Get(t0, key).Some? then 1 else 0
    ensures Follows(u, m.units, t0, Data(s'))
    ensures own' == Foot(s') && fresh(own' - own) && OthersKept(node, old(node.arr[..]))
    ensures old(m.used) - own <= m.used
  {
    hide *;
    ghost var t, v := Data(f), m.units;
    LastKey(fs, t, k, nhi, t0, key);
    OwnIs(fs, f, node, own);
    InsertEnds(fs, t, k, nhi, t0, key);
    ghost var g;
    r, g := InsertHere(root, m, node, pos, level, nhi, fs, f, k);
    LeafBooked(fs, u, v, m.units, t0, t, k, nhi);
    s' := Finish(m, root, fs, node, g);
    own' := Foot(s');
  }

  /** What a change at `node`, one of the places of a walk, leaves of the array at `root`. */
  lemma {:induction false} RootKept(root: Ptr, fs: seq<Frame>, node: Ptr,
                                    was: seq<Struct>, mid: seq<Struct>, nodeWas: seq<Struct>)
    requires fs == [] ==> node == root && nodeWas == mid
    requires fs != [] ==> node.arr != root.arr && root.arr[..] == mid
    requires |was| == |mid| == root.arr.Length && OthersKept(node, nodeWas)
    requires forall j | 0 <= j < |was| && j != root.idx :: mid[j] == was[j]
    ensures OthersKept(root, was)
  {
  }

  lemma {:induction false} Placing(m: Mm, root: Ptr, fs: seq<Frame>, node: Ptr, f: Shape, own: set<object>)
    requires AllSound(fs) && Walking(m, root, fs, node, f) && Owning(fs, f, node, own)
    ensures root.arr !in own && BlockFoot(f.block) <= own && root.idx < root.arr.Length
    ensures (fs == [] ==> node == root) && (fs != [] ==> node.arr in own)
    ensures root.arr !in m.Repr()
  {
    Here(m, root, fs, node, f);
  }

  /** The state of the loop of bitmap_insert_prefix. */
  ghost predicate InsertState(root: Ptr, m: Mm, node: Ptr, k: Bits, level: nat, nhi: Nhi,
                              fs: seq<Frame>, f: Shape, t0: Tree, key: Bits, u: seq<int>, was: seq<Struct>,
                              own: set<object>)
    requires AllSound(fs)
    reads m.Repr(), root.arr, node.arr, SpineFoot(fs), Foot(f)
  {
    InsertStates(root, m, node, k, level, nhi, fs, f, t0, key, u, was, own) == true
  }

  ghost predicate InsertStates(root: Ptr, m: Mm, node: Ptr, k: Bits, level: nat, nhi: Nhi,
                               fs: seq<Frame>, f: Shape, t0: Tree, key: Bits, u: seq<int>, was: seq<Struct>,
                               own: set<object>)
    requires AllSound(fs)
    reads m.Repr(), root.arr, node.arr, SpineFoot(fs), Foot(f)
  {
    && Walking(m, root, fs, node, f) && level == |fs| && Owning(fs, f, node, own)
    && Inserting(fs, Data(f), k, nhi, t0, key) && Packed(t0)
    && Follows(u, m.units, t0, PlugT(fs, Data(f)))
    && OthersKept(root, was)
  }

  /** What the state says. */
  lemma {:induction false} StateParts(root: Ptr, m: Mm, node: Ptr, k: Bits, level: nat, nhi: Nhi,
                                      fs: seq<Frame>, f: Shape, t0: Tree, key: Bits, u: seq<int>, was: seq<Struct>,
                                      own: set<object>)
    requires AllSound(fs) && InsertState(root, m, node, k, level, nhi, fs, f, t0, key, u, was, own)
    ensures Walking(m, root, fs, node, f) && level == |fs| && Owning(fs, f, node, own)
    ensures Inserting(fs, Data(f), k, nhi, t0, key) && Packed(t0) && Follows(u, m.units, t0, PlugT(fs, Data(f)))
    ensures root.arr !in own + m.Repr() && BlockFoot(f.block) <= own && root.idx < root.arr.Length == |was|
    ensures (fs == [] ==> node == root) && (fs != [] ==> node.arr in own)
    ensures forall j | 0 <= j < |was| && j != root.idx :: root.arr[j] == was[j]
  {
    Placing(m, root, fs, node, f, own);
  }

  lemma {:induction false} StateOf(root: Ptr, m: Mm, node: Ptr, k: Bits, level: nat, nhi: Nhi,
                                   fs: seq<Frame>, f: Shape, t0: Tree, key: Bits, u: seq<int>, was: seq<Struct>,
                                   own: set<object>)
    requires AllSound(fs) && Walking(m, root, fs, node, f) && level == |fs| && Owning(fs, f, node, own)
    requires Inserting(fs, Data(f), k, nhi, t0, key) && Packed(t0) && Follows(u, m.units, t0, PlugT(fs, Data(f)))
    requires OthersKept(root, was)
    ensures InsertState(root, m, node, k, level, nhi, fs, f, t0, key, u, was, own)
  {
  }

  /** One pass of the loop. */
  method InsertPass(root: Ptr, m: Mm, node: Ptr, stride: nat, level: nat, ghost k: Bits, ghost nhi: Nhi,
                    ghost fs: seq<Frame>, ghost f: Shape, ghost t0: Tree, ghost key: Bits, ghost u: seq<int>,
                    ghost was: seq<Struct>, ghost own: set<object>)
    returns (child: Ptr, ghost gs: seq<Frame>, ghost c: Shape, ghost own': set<object>)
    requires AllSound(fs) && |k| >= STRIDE && stride == Val(k[..STRIDE])
    requires InsertState(root, m, node, k, level, nhi, fs, f, t0, key, u, was, own)
    modifies m.Repr(), root.arr, own
    ensures AllSound(gs) && fresh(own' - own)
    ensures InsertState(root, m, child, k[STRIDE..], level + 1, nhi, gs, c, t0, key, u, was, own')
    ensures old(m.used) - own <= m.used
  {
    hide *;
    StateParts(root, m, node, k, level, nhi, fs, f, t0, key, u, was, own);
    ghost var mid, nodeWas := root.arr[..], node.arr[..];
    child, gs, c, own' := InsertStep(root, m, node, stride, level, k, nhi, fs, f, t0, key, u, own);
    RootKept(root, fs, node, was, mid, nodeWas);
    StateOf(root, m, child, k[STRIDE..], level + 1, nhi, gs, c, t0, key, u, was, own');
  }

  method InsertFinal(root: Ptr, m: Mm, node: Ptr, pos: nat, level: nat, nhi: Nhi, ghost k: Bits,
                     ghost fs: seq<Frame>, ghost f: Shape, ghost t0: Tree, ghost key: Bits, ghost u: seq<int>,
                     ghost was: seq<Struct>, ghost own: set<object>)
    returns (r: int, ghost s': Shape, ghost own': set<object>)
    requires AllSound(fs) && |k| < STRIDE && pos == Pos(k)
    requires InsertState(root, m, node, k, level, nhi, fs, f, t0, key, u, was, own)
    modifies m.Repr(), root.arr, own
    ensures Owned(m, root, s', 0) && OthersKept(root, was)
    ensures Data(s') == InsertT(t0, key, nhi)
    ensures r == if Get(t0, key).Some? then 1 else 0
    ensures Follows(u, m.units, t0, Data(s'))
    ensures own' == Foot(s') && fresh(own' - own)
    ensures old(m.used) - own <= m.used
  {
    hide *;
    StateParts(root, m, node, k, level, nhi, fs, f, t0, key, u, was, own);
    ghost var mid, nodeWas := root.arr[..], node.arr[..];
    r, s', own' := InsertLast(root, m, node, pos, level, nhi, k, fs, f, t0, key, u, own);
    RootKept(root, fs, node, was, mid, nodeWas);
  }

  lemma {:induction false} InsertStarts(root: Ptr, m: Mm, k: Bits, nhi: Nhi, s: Shape)
    requires Owned(m, root, s, 0) && Packed(Data(s)) && |k| <= MAX_KEY
    ensures AllSound([])
    ensures InsertState(root, m, root, k, 0, nhi, [], s, Data(s), k, m.units, root.arr[..], Foot(s))
  {
    Begin(m, root, s);
    InsertBegins(Data(s), k, nhi);
  }

  lemma {:induction false} GrownBooked(fs: seq<Frame>, u: seq<int>, v: seq<int>, w: seq<int>, t0: Tree, t: Tree,
                                       p: nat)
    requires AllSound(fs) && Packed(t) && p < 64 && Follows(u, v, t0, PlugT(fs, t))
    requires Charged(v, w, |fs|, NodeUnits(WithChild(t, p)) - NodeUnits(t))
    ensures Follows(u, w, t0, PlugT(fs, WithChild(t, p)))
  {
    if !Bit(t.ext, p) { AddChildUnits(t, p); }
    Booked(fs, u, v, w, t0, t, WithChild(t, p));
  }

  lemma {:induction false} LeafBooked(fs: seq<Frame>, u: seq<int>, v: seq<int>, w: seq<int>, t0: Tree, t: Tree,
                                      k: Bits, nhi: Nhi)
    requires AllSound(fs) && Packed(t) && |k| < STRIDE && Follows(u, v, t0, PlugT(fs, t))
    requires Charged(v, w, |fs|, NodeUnits(InsertT(t, k, nhi)) - NodeUnits(t))
    ensures Follows(u, w, t0, PlugT(fs, InsertT(t, k, nhi)))
  {
    assert InsertT(t, k, nhi).kids == t.kids;
    Booked(fs, u, v, w, t0, t, InsertT(t, k, nhi));
  }
}
