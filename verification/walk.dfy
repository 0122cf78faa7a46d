/** A program that stands at one node of a trie it owns, with the spine above it as a ghost. */
module Walk {
  import opened Words
  import opened Trees
  import opened Memory
  import opened Shapes
  import opened MbNode
  import opened Spine

  /** `node` points to the root of f, which is what is below the spine fs of the trie at `root`. */
  ghost predicate Walking(m: Mm, root: Ptr, fs: seq<Frame>, node: Ptr, f: Shape)
    requires AllSound(fs)
    reads m.Repr(), root.arr, node.arr, SpineFoot(fs), Foot(f)
  {
    Walks(m, root, fs, node, f) == true
  }

  ghost predicate Walks(m: Mm, root: Ptr, fs: seq<Frame>, node: Ptr, f: Shape)
    requires AllSound(fs)
    reads m.Repr(), root.arr, node.arr, SpineFoot(fs), Foot(f)
  {
    && Owned(m, node, f, |fs|)
    && SpineMatch(fs, RootOf(f)) && SpineFoot(fs) !! Foot(f) + m.Repr() && SpineFoot(fs) <= m.used
    && root.idx < root.arr.Length && root.arr !in SpineFoot(fs) + Foot(f) + m.Repr()
    && (fs == [] ==> node == root)
    && (fs != [] ==> Reached(fs, node) && At(root, fs[0].s))
  }

  /** node points into the hole of the last frame. */
  ghost predicate Reached(fs: seq<Frame>, node: Ptr)
    requires AllSound(fs)
  {
    fs != [] ==>
      var fr := fs[|fs| - 1];
      fr.s.block != null && node == Ptr(fr.s.block.kids, Hole(fr))
  }

  lemma {:induction false} SpineAlloc(fs: seq<Frame>)
    requires AllSound(fs)
    ensures allocated(SpineFoot(fs))
  {
    forall i | 0 <= i < |fs| ensures allocated(FrameFoot(fs[i])) {
      KidsAlloc(RemoveAt(fs[i].s.kids, Hole(fs[i])));
    }
  }

  lemma {:induction false} ReprAlloc(m: Mm)
    ensures allocated(m.Repr()) && m in m.Repr()
  {
  }

  // ----- changing the current node ----------------------------------------------------

  /** What the walk owns apart from the array of the current node and what is below it. */
  ghost function AsideFoot(root: Ptr, fs: seq<Frame>): set<object>
    requires AllSound(fs)
  {
    RestFoot(fs) + if fs == [] then {} else {root.arr}
  }

  ghost predicate Aside(root: Ptr, fs: seq<Frame>)
    requires AllSound(fs)
    reads AsideFoot(root, fs)
  {
    Asides(root, fs) == true
  }

  ghost predicate Asides(root: Ptr, fs: seq<Frame>)
    requires AllSound(fs)
    reads AsideFoot(root, fs)
  {
    Rest(fs) && (fs != [] ==> At(root, fs[0].s))
  }

  /** The places of the walk, apart from what memory holds there. */
  ghost predicate Placed(m: Mm, root: Ptr, fs: seq<Frame>, node: Ptr, foot: set<object>)
    requires AllSound(fs)
    reads m
  {
    && RestFoot(fs) <= m.used && (fs != [] ==> node.arr in m.used)
    && AsideFoot(root, fs) !! {node.arr} + m.Repr() + foot
    && root.idx < root.arr.Length && root.arr !in RestFoot(fs) + m.Repr() + foot
    && (fs == [] ==> node == root)
    && Reached(fs, node)
  }

  ghost predicate Clear(m: Mm, root: Ptr, foot: set<object>)
    reads m
  {
    m.Repr() !! foot && root.arr !in foot + m.Repr() && foot <= m.used
  }

  lemma {:induction false} Here(m: Mm, root: Ptr, fs: seq<Frame>, node: Ptr, f: Shape)
    requires AllSound(fs) && Walking(m, root, fs, node, f)
    ensures Owned(m, node, f, |fs|) && SpineMatch(fs, RootOf(f)) && Match(f, |fs|)
    ensures SpineFoot(fs) !! Foot(f) && Clear(m, root, SpineFoot(fs) + Foot(f))
    ensures At(root, if fs == [] then f else fs[0].s)
    ensures Reached(fs, node) && (fs == [] ==> node == root)
  {
  }

  lemma {:induction false} Reading(m: Mm, root: Ptr, fs: seq<Frame>, node: Ptr, f: Shape)
    requires AllSound(fs) && Walking(m, root, fs, node, f)
    ensures At(node, f) && Packed(Data(f))
  {
  }

  lemma {:induction false} NoSpine()
    ensures AllSound([]) && SpineFoot([]) == {} && RestFoot([]) == {}
  {
  }

  lemma {:induction false} OwnedPlace(m: Mm, node: Ptr, f: Shape, d: nat)
    requires Owned(m, node, f, d)
    ensures At(node, f) && m.Repr() !! Foot(f) && node.arr !in Foot(f) + m.Repr() && Foot(f) <= m.used
  {
  }

  lemma {:induction false} OpenFrom(m: Mm, root: Ptr, fs: seq<Frame>, node: Ptr, f: Shape)
    requires AllSound(fs) && Owned(m, node, f, |fs|) && SpineMatch(fs, RootOf(f))
    requires SpineFoot(fs) !! Foot(f) && Clear(m, root, SpineFoot(fs) + Foot(f))
    requires At(root, if fs == [] then f else fs[0].s)
    requires Reached(fs, node) && (fs == [] ==> node == root)
    ensures Aside(root, fs) && Placed(m, root, fs, node, Foot(f))
    ensures fs != [] ==> node.arr[..] == RootsOf(fs[|fs| - 1].s.kids)[Hole(fs[|fs| - 1]) := RootOf(f)]
  {
    hide Packs, Matches, Owns, RestFoot, SpineFoot, SpineMatches, Rests, Foot, KidsFoot, Data;
    SplitSpine(fs, RootOf(f));
    OwnedPlace(m, node, f, |fs|);
    NoSpine();
  }

  lemma {:induction false} Open(m: Mm, root: Ptr, fs: seq<Frame>, node: Ptr, f: Shape)
    requires AllSound(fs) && Walking(m, root, fs, node, f)
    ensures Owned(m, node, f, |fs|) && Aside(root, fs) && Placed(m, root, fs, node, Foot(f))
    ensures fs != [] ==> node.arr[..] == RootsOf(fs[|fs| - 1].s.kids)[Hole(fs[|fs| - 1]) := RootOf(f)]
  {
    Here(m, root, fs, node, f);
    OpenFrom(m, root, fs, node, f);
  }

  lemma {:induction false} AsideAlloc(root: Ptr, fs: seq<Frame>)
    requires AllSound(fs) && RestFoot(fs) <= SpineFoot(fs)
    ensures allocated(AsideFoot(root, fs))
  {
    SpineAlloc(fs);
  }

  lemma {:induction false} RestInSpine(fs: seq<Frame>)
    requires AllSound(fs)
    ensures RestFoot(fs) <= SpineFoot(fs)
    ensures fs != [] && fs[|fs| - 1].s.block != null ==> SpineFoot(fs) == RestFoot(fs) + {fs[|fs| - 1].s.block.kids}
  {
    if fs != [] { SpineFootLast(fs); }
  }

  lemma {:induction false} CloseSpine(root: Ptr, fs: seq<Frame>, node: Ptr, f: Shape, g: Shape, was: seq<Struct>)
    requires AllSound(fs) && Aside(root, fs) && Reached(fs, node) && At(node, g)
    requires OthersKept(node, was)
    requires fs != [] ==> was == RootsOf(fs[|fs| - 1].s.kids)[Hole(fs[|fs| - 1]) := RootOf(f)]
    ensures SpineMatch(fs, RootOf(g))
  {
    if fs != [] {
      var fr := fs[|fs| - 1];
      assert fr.s.block.kids[..] == RootsOf(fr.s.kids)[Hole(fr) := RootOf(g)];
    }
    JoinSpine(fs, RootOf(g));
  }

  lemma {:induction false} Close(m: Mm, root: Ptr, fs: seq<Frame>, node: Ptr, f: Shape, g: Shape, was: seq<Struct>)
    requires AllSound(fs) && Owned(m, node, g, |fs|) && Aside(root, fs) && Placed(m, root, fs, node, Foot(g))
    requires OthersKept(node, was)
    requires fs != [] ==> was == RootsOf(fs[|fs| - 1].s.kids)[Hole(fs[|fs| - 1]) := RootOf(f)]
    ensures Walking(m, root, fs, node, g)
  {
    hide Packs, Matches, Owns, RestFoot, SpineFoot, SpineMatches, Rests, Foot, KidsFoot, Data;
    OwnedPlace(m, node, g, |fs|);
    NoSpine();
    CloseSpine(root, fs, node, f, g, was);
    RestInSpine(fs);
    assert SpineFoot(fs) !! Foot(g) + m.Repr();
  }

  /** Going down to the child under `bit`. */
  lemma {:induction false} DownSpine(fs: seq<Frame>, f: Shape, bit: nat)
    requires AllSound(fs) && SpineMatch(fs, RootOf(f)) && Match(f, |fs|) && SpineFoot(fs) !! Foot(f)
    requires Sound(Frame(f, bit))
    ensures AllSound(fs + [Frame(f, bit)])
    ensures SpineMatch(fs + [Frame(f, bit)], RootOf(f.kids[Hole(Frame(f, bit))]))
    ensures SpineFoot(fs + [Frame(f, bit)]) == SpineFoot(fs) + FrameFoot(Frame(f, bit))
  {
    Dig(f, bit, |fs|);
    SpinePush(fs, Frame(f, bit), RootOf(f.kids[Hole(Frame(f, bit))]));
  }

  lemma {:induction false} DownOwned(m: Mm, node: Ptr, f: Shape, bit: nat, d: nat)
    requires Owned(m, node, f, d) && Bit(f.ext, bit) && d + 1 < MAX_LEVEL
    ensures Sound(Frame(f, bit)) && f.block != null
    ensures Owned(m, Ptr(f.block.kids, Hole(Frame(f, bit))), f.kids[Hole(Frame(f, bit))], d + 1)
    ensures Data(f.kids[Hole(Frame(f, bit))]) == ChildAt(Data(f), bit)
  {
    Dig(f, bit, d);
  }

  lemma {:induction false} DownPlaces(m: Mm, root: Ptr, fs: seq<Frame>, f: Shape, bit: nat)
    requires AllSound(fs) && Match(f, |fs|) && SpineMatch(fs, RootOf(f)) && SpineFoot(fs) !! Foot(f)
    requires Sound(Frame(f, bit)) && AllSound(fs + [Frame(f, bit)])
    ensures SpineFoot(fs + [Frame(f, bit)]) !! Foot(f.kids[Hole(Frame(f, bit))])
    ensures SpineFoot(fs + [Frame(f, bit)]) + Foot(f.kids[Hole(Frame(f, bit))]) == SpineFoot(fs) + Foot(f)
  {
    Dig(f, bit, |fs|);
    DownSpine(fs, f, bit);
  }

  lemma {:induction false} Arrive(m: Mm, root: Ptr, fs: seq<Frame>, node: Ptr, f: Shape)
    requires AllSound(fs) && Owned(m, node, f, |fs|) && SpineMatch(fs, RootOf(f))
    requires SpineFoot(fs) !! Foot(f) && Clear(m, root, SpineFoot(fs) + Foot(f))
    requires fs != [] && Reached(fs, node) && At(root, fs[0].s)
    ensures Walking(m, root, fs, node, f)
  {
  }

  /** From a node to its child under `bit`. */
  lemma {:induction false} Down(m: Mm, root: Ptr, fs: seq<Frame>, node: Ptr, f: Shape, bit: nat)
    returns (gs: seq<Frame>, child: Ptr, c: Shape)
    requires AllSound(fs) && Walking(m, root, fs, node, f) && Bit(f.ext, bit) && |fs| + 1 < MAX_LEVEL
    ensures Sound(Frame(f, bit)) && gs == fs + [Frame(f, bit)] && AllSound(gs)
    ensures f.block != null && child == Ptr(f.block.kids, Hole(Frame(f, bit)))
    ensures c == f.kids[Hole(Frame(f, bit))] && Data(c) == ChildAt(Data(f), bit)
    ensures Walking(m, root, gs, child, c)
    ensures SpineFoot(gs) + Foot(c) == SpineFoot(fs) + Foot(f)
  {
    hide Packs, Matches, Owns, Walks, SpineMatches, SpineFoot, Foot, KidsFoot, Data;
    Here(m, root, fs, node, f);
    var fr := Frame(f, bit);
    DownOwned(m, node, f, bit, |fs|);
    DownSpine(fs, f, bit);
    DownPlaces(m, root, fs, f, bit);
    gs, child, c := fs + [fr], Ptr(f.block.kids, Hole(fr)), f.kids[Hole(fr)];
    Arrive(m, root, gs, child, c);
  }

  lemma {:induction false} BlockInFoot(f: Shape)
    ensures BlockFoot(f.block) <= Foot(f)
  {
  }

  method AddRuleAside(m: Mm, root: Ptr, node: Ptr, bit: nat, level: nat, nhi: Nhi, ghost fs: seq<Frame>,
                      ghost f: Shape)
    returns (ghost g: Shape)
    requires AllSound(fs) && Owned(m, node, f, level) && Aside(root, fs) && Placed(m, root, fs, node, Foot(f))
    requires allocated(AsideFoot(root, fs))
    requires bit < 63 && !Bit(f.inl, bit)
    modifies m.Repr(), node.arr, BlockFoot(f.block)
    ensures Owned(m, node, g, level) && Aside(root, fs) && Placed(m, root, fs, node, Foot(g))
    ensures OthersKept(node, old(node.arr[..])) && fresh(Foot(g) - Foot(f))
    ensures Data(g) == AddRule(Data(f), bit, nhi)
    ensures Charged(old(m.units), m.units, level, NodeUnits(Data(g)) - NodeUnits(Data(f)))
    ensures old(m.used) - BlockFoot(f.block) <= m.used
  {
    hide Packs, Matches, Owns, Rests, RestFoot, SpineFoot, KidsFoot, Data;
    BlockInFoot(f);
    OwnedPlace(m, node, f, level);
    g := ExtendRule(m, node, bit, level, nhi, f);
    assert Aside(root, fs);
  }

  method AddRuleHere(m: Mm, root: Ptr, node: Ptr, bit: nat, level: nat, nhi: Nhi, ghost fs: seq<Frame>,
                     ghost f: Shape)
    returns (ghost g: Shape)
    requires AllSound(fs) && Walking(m, root, fs, node, f) && level == |fs|
    requires bit < 63 && !Bit(f.inl, bit)
    modifies m.Repr(), node.arr, BlockFoot(f.block)
    ensures Walking(m, root, fs, node, g) && fresh(Foot(g) - Foot(f))
    ensures OthersKept(node, old(node.arr[..]))
    ensures Data(g) == AddRule(Data(f), bit, nhi)
    ensures Charged(old(m.units), m.units, level, NodeUnits(Data(g)) - NodeUnits(Data(f)))
    ensures old(m.used) - BlockFoot(f.block) <= m.used
  {
    hide Packs, Matches, Owns, Walks, Rests, RestFoot, SpineFoot, Foot, KidsFoot, Data;
    Open(m, root, fs, node, f);
    RestInSpine(fs);
    AsideAlloc(root, fs);
    ghost var was := node.arr[..];
    g := AddRuleAside(m, root, node, bit, level, nhi, fs, f);
    Close(m, root, fs, node, f, g, was);
  }

  method AddChildAside(m: Mm, root: Ptr, node: Ptr, bit: nat, level: nat, ghost fs: seq<Frame>, ghost f: Shape)
    returns (child: Ptr, ghost g: Shape)
    requires AllSound(fs) && Owned(m, node, f, level) && Aside(root, fs) && Placed(m, root, fs, node, Foot(f))
    requires allocated(AsideFoot(root, fs))
    requires bit < 64 && !Bit(f.ext, bit)
    modifies m.Repr(), node.arr, BlockFoot(f.block)
    ensures Owned(m, node, g, level) && Aside(root, fs) && Placed(m, root, fs, node, Foot(g))
    ensures OthersKept(node, old(node.arr[..])) && fresh(Foot(g) - Foot(f))
    ensures Data(g) == AddChild(Data(f), bit, EMPTY) && g.ext == SetBit(f.ext, bit)
    ensures g.block != null && child == Ptr(g.block.kids, Rank(f.ext, bit))
    ensures Charged(old(m.units), m.units, level, NodeUnits(Data(g)) - NodeUnits(Data(f)))
    ensures old(m.used) - BlockFoot(f.block) <= m.used
  {
    hide Packs, Matches, Owns, Rests, RestFoot, SpineFoot, KidsFoot, Data;
    BlockInFoot(f);
    OwnedPlace(m, node, f, level);
    child, g := ExtendChild(m, node, level, bit, f);
    assert Aside(root, fs);
  }

  method AddChildHere(m: Mm, root: Ptr, node: Ptr, bit: nat, level: nat, ghost fs: seq<Frame>, ghost f: Shape)
    returns (child: Ptr, ghost g: Shape)
    requires AllSound(fs) && Walking(m, root, fs, node, f) && level == |fs|
    requires bit < 64 && !Bit(f.ext, bit)
    modifies m.Repr(), node.arr, BlockFoot(f.block)
    ensures Walking(m, root, fs, node, g) && fresh(Foot(g) - Foot(f))
    ensures OthersKept(node, old(node.arr[..]))
    ensures Data(g) == AddChild(Data(f), bit, EMPTY) && g.ext == SetBit(f.ext, bit)
    ensures g.block != null && child == Ptr(g.block.kids, Rank(f.ext, bit))
    ensures Charged(old(m.units), m.units, level, NodeUnits(Data(g)) - NodeUnits(Data(f)))
    ensures old(m.used) - BlockFoot(f.block) <= m.used
  {
    hide Packs, Matches, Owns, Walks, Rests, RestFoot, SpineFoot, Foot, KidsFoot, Data;
    Open(m, root, fs, node, f);
    RestInSpine(fs);
    AsideAlloc(root, fs);
    ghost var was := node.arr[..];
    child, g := AddChildAside(m, root, node, bit, level, fs, f);
    Close(m, root, fs, node, f, g, was);
  }

  method DropRuleAside(m: Mm, root: Ptr, node: Ptr, bit: nat, level: nat, ghost fs: seq<Frame>, ghost f: Shape)
    returns (ghost g: Shape)
    requires AllSound(fs) && Owned(m, node, f, level) && Aside(root, fs) && Placed(m, root, fs, node, Foot(f))
    requires allocated(AsideFoot(root, fs))
    requires Bit(f.inl, bit)
    modifies m.Repr(), node.arr, BlockFoot(f.block)
    ensures Owned(m, node, g, level) && Aside(root, fs) && Placed(m, root, fs, node, Foot(g))
    ensures OthersKept(node, old(node.arr[..])) && fresh(Foot(g) - Foot(f))
    ensures Data(g) == DropRule(Data(f), bit)
    ensures Charged(old(m.units), m.units, level, NodeUnits(Data(g)) - NodeUnits(Data(f)))
    ensures old(m.used) - BlockFoot(f.block) <= m.used
  {
    hide Packs, Matches, Owns, Rests, RestFoot, SpineFoot, KidsFoot, Data;
    BlockInFoot(f);
    OwnedPlace(m, node, f, level);
    g := ReduceRule(m, node, bit, level, f);
    assert Aside(root, fs);
  }

  method DropRuleHere(m: Mm, root: Ptr, node: Ptr, bit: nat, level: nat, ghost fs: seq<Frame>, ghost f: Shape)
    returns (ghost g: Shape)
    requires AllSound(fs) && Walking(m, root, fs, node, f) && level == |fs|
    requires Bit(f.inl, bit)
    modifies m.Repr(), node.arr, BlockFoot(f.block)
    ensures Walking(m, root, fs, node, g) && fresh(Foot(g) - Foot(f))
    ensures OthersKept(node, old(node.arr[..]))
    ensures Data(g) == DropRule(Data(f), bit)
    ensures Charged(old(m.units), m.units, level, NodeUnits(Data(g)) - NodeUnits(Data(f)))
    ensures old(m.used) - BlockFoot(f.block) <= m.used
  {
    hide Packs, Matches, Owns, Walks, Rests, RestFoot, SpineFoot, Foot, KidsFoot, Data;
    Open(m, root, fs, node, f);
    RestInSpine(fs);
    AsideAlloc(root, fs);
    ghost var was := node.arr[..];
    g := DropRuleAside(m, root, node, bit, level, fs, f);
    Close(m, root, fs, node, f, g, was);
  }

  method DropChildAside(m: Mm, root: Ptr, node: Ptr, bit: nat, level: nat, ghost fs: seq<Frame>, ghost f: Shape)
    returns (ghost g: Shape)
    requires AllSound(fs) && Owned(m, node, f, level) && Aside(root, fs) && Placed(m, root, fs, node, Foot(f))
    requires allocated(AsideFoot(root, fs))
    requires bit < 64 && Bit(f.ext, bit)
    modifies m.Repr(), node.arr, BlockFoot(f.block)
    ensures Owned(m, node, g, level) && Aside(root, fs) && Placed(m, root, fs, node, Foot(g))
    ensures OthersKept(node, old(node.arr[..])) && fresh(Foot(g) - Foot(f))
    ensures Data(g) == DropChild(Data(f), bit)
    ensures Charged(old(m.units), m.units, level, NodeUnits(Data(g)) - NodeUnits(Data(f)))
    ensures old(m.used) - BlockFoot(f.block) <= m.used
  {
    hide Packs, Matches, Owns, Rests, RestFoot, SpineFoot, KidsFoot, Data;
    BlockInFoot(f);
    OwnedPlace(m, node, f, level);
    g := ReduceChild(m, node, bit, level, f);
    assert Aside(root, fs);
  }

  method DropChildHere(m: Mm, root: Ptr, node: Ptr, bit: nat, level: nat, ghost fs: seq<Frame>, ghost f: Shape)
    returns (ghost g: Shape)
    requires AllSound(fs) && Walking(m, root, fs, node, f) && level == |fs|
    requires bit < 64 && Bit(f.ext, bit)
    modifies m.Repr(), node.arr, BlockFoot(f.block)
    ensures Walking(m, root, fs, node, g) && fresh(Foot(g) - Foot(f))
    ensures OthersKept(node, old(node.arr[..]))
    ensures Data(g) == DropChild(Data(f), bit)
    ensures Charged(old(m.units), m.units, level, NodeUnits(Data(g)) - NodeUnits(Data(f)))
    ensures old(m.used) - BlockFoot(f.block) <= m.used
  {
    hide Packs, Matches, Owns, Walks, Rests, RestFoot, SpineFoot, Foot, KidsFoot, Data;
    Open(m, root, fs, node, f);
    RestInSpine(fs);
    AsideAlloc(root, fs);
    ghost var was := node.arr[..];
    g := DropChildAside(m, root, node, bit, level, fs, f);
    Close(m, root, fs, node, f, g, was);
  }

  method PutRuleAside(m: Mm, root: Ptr, node: Ptr, bit: nat, level: nat, nhi: Nhi, ghost fs: seq<Frame>,
                      ghost f: Shape)
    returns (ghost g: Shape)
    requires AllSound(fs) && Owned(m, node, f, level) && Aside(root, fs) && Placed(m, root, fs, node, Foot(f))
    requires allocated(AsideFoot(root, fs)) && Bit(f.inl, bit)
    modifies RulesArr(f.block)
    ensures Owned(m, node, g, level) && Aside(root, fs) && Placed(m, root, fs, node, Foot(g))
    ensures Foot(g) == Foot(f) && RootOf(g) == RootOf(f)
    ensures Data(g) == PutRule(Data(f), bit, nhi)
    ensures NodeUnits(Data(g)) == NodeUnits(Data(f))
  {
    hide Packs, Matches, Owns, Rests, RestFoot, SpineFoot, KidsFoot, Data;
    BlockInFoot(f);
    OwnedPlace(m, node, f, level);
    assert RulesArr(f.block) <= BlockFoot(f.block) <= Foot(f);
    g := OverwriteRule(m, node, bit, level, nhi, f);
    assert Aside(root, fs);
  }

  method PutRuleHere(m: Mm, root: Ptr, node: Ptr, bit: nat, level: nat, nhi: Nhi, ghost fs: seq<Frame>,
                     ghost f: Shape)
    returns (ghost g: Shape)
    requires AllSound(fs) && Walking(m, root, fs, node, f) && level == |fs| && Bit(f.inl, bit)
    modifies RulesArr(f.block)
    ensures Walking(m, root, fs, node, g) && Foot(g) == Foot(f)
    ensures Data(g) == PutRule(Data(f), bit, nhi)
    ensures NodeUnits(Data(g)) == NodeUnits(Data(f))
  {
    hide Packs, Matches, Owns, Walks, Rests, RestFoot, SpineFoot, Foot, KidsFoot, Data;
    Open(m, root, fs, node, f);
    RestInSpine(fs);
    AsideAlloc(root, fs);
    ghost var was := node.arr[..];
    g := PutRuleAside(m, root, node, bit, level, nhi, fs, f);
    Close(m, root, fs, node, f, g, was);
  }

  /** The walk is over: memory holds the whole trie. */
  lemma {:induction false} Finish(m: Mm, root: Ptr, fs: seq<Frame>, node: Ptr, g: Shape) returns (s: Shape)
    requires AllSound(fs) && Walking(m, root, fs, node, g)
    ensures s == Plug(fs, g) && Data(s) == PlugT(fs, Data(g))
    ensures Owned(m, root, s, 0) && Foot(s) == SpineFoot(fs) + Foot(g)
  {
    Here(m, root, fs, node, g);
    s := Plug(fs, g);
    FillAll(fs, g);
    PlugData(fs, g);
    PlugPacked(fs, Data(g));
  }

  lemma {:induction false} Begin(m: Mm, root: Ptr, s: Shape)
    requires Owned(m, root, s, 0)
    ensures AllSound([]) && Walking(m, root, [], root, s) && SpineFoot([]) == {}
  {
    NoSpine();
  }

  /** Back up: the node above is what is below the shorter spine. */
  lemma {:induction false} Up(m: Mm, root: Ptr, fs: seq<Frame>, node: Ptr, c: Shape, above: Ptr)
    requires AllSound(fs) && fs != [] && Walking(m, root, fs, node, c) && Packed(Data(c))
    requires fs[..|fs| - 1] == [] ==> above == root
    requires Reached(fs[..|fs| - 1], above)
    ensures Walking(m, root, fs[..|fs| - 1], above, PlugOne(fs[|fs| - 1], c))
    ensures SpineFoot(fs[..|fs| - 1]) + Foot(PlugOne(fs[|fs| - 1], c)) == SpineFoot(fs) + Foot(c)
  {
    hide Walks, Matches, Packs, Owns, SpineFoot, SpineMatches, Foot, KidsFoot, Data;
    Here(m, root, fs, node, c);
    var gs, last := fs[..|fs| - 1], fs[|fs| - 1];
    var s := PlugOne(last, c);
    UpMatch(fs, c);
    UpOwned(m, root, fs, node, c, above);
    if gs == [] {
      NoSpine();
      ArriveTop(m, root, s);
    } else {
      assert gs[0] == fs[0];
      Arrive(m, root, gs, above, s);
    }
  }

  lemma {:induction false} UpMatch(fs: seq<Frame>, c: Shape)
    requires AllSound(fs) && fs != [] && SpineMatch(fs, RootOf(c)) && Match(c, |fs|) && SpineFoot(fs) !! Foot(c)
    ensures SpineMatch(fs[..|fs| - 1], RootOf(fs[|fs| - 1].s))
    ensures Match(PlugOne(fs[|fs| - 1], c), |fs| - 1)
    ensures SpineFoot(fs[..|fs| - 1]) !! Foot(PlugOne(fs[|fs| - 1], c))
    ensures SpineFoot(fs[..|fs| - 1]) + Foot(PlugOne(fs[|fs| - 1], c)) == SpineFoot(fs) + Foot(c)
  {
    SpinePop(fs, RootOf(c));
    SpineLast(fs, RootOf(c));
    SpineApart(fs, RootOf(c));
    SpineFootLast(fs);
    Fill(fs[|fs| - 1], c, |fs| - 1);
  }

  lemma {:induction false} UpOwned(m: Mm, root: Ptr, fs: seq<Frame>, node: Ptr, c: Shape, above: Ptr)
    requires AllSound(fs) && fs != [] && Owned(m, node, c, |fs|)
    requires SpineMatch(fs, RootOf(c)) && Match(c, |fs|) && SpineFoot(fs) !! Foot(c)
    requires Clear(m, root, SpineFoot(fs) + Foot(c)) && At(root, fs[0].s)
    requires fs[..|fs| - 1] == [] ==> above == root
    requires Reached(fs[..|fs| - 1], above)
    ensures Owned(m, above, PlugOne(fs[|fs| - 1], c), |fs| - 1)
  {
    hide Matches, SpineMatches, Packs;
    var gs, last := fs[..|fs| - 1], fs[|fs| - 1];
    var s := PlugOne(last, c);
    UpMatch(fs, c);
    PlugOneKids(last, c);
    PutChildKeeps(Data(last.s), last.bit, Data(c), 0);
    SplitSpine(gs, RootOf(last.s));
    UpAt(fs, above, root);
    UpClear(m, root, fs, c, above);
    assert Packed(Data(s)) && At(above, s) && m.Valid();
  }

  lemma {:induction false} UpClear(m: Mm, root: Ptr, fs: seq<Frame>, c: Shape, above: Ptr)
    requires AllSound(fs) && fs != [] && Clear(m, root, SpineFoot(fs) + Foot(c))
    requires SpineFoot(fs[..|fs| - 1]) !! Foot(PlugOne(fs[|fs| - 1], c))
    requires SpineFoot(fs[..|fs| - 1]) + Foot(PlugOne(fs[|fs| - 1], c)) == SpineFoot(fs) + Foot(c)
    requires fs[..|fs| - 1] == [] ==> above == root
    requires Reached(fs[..|fs| - 1], above)
    ensures m.Repr() !! Foot(PlugOne(fs[|fs| - 1], c)) && Foot(PlugOne(fs[|fs| - 1], c)) <= m.used
    ensures above.arr !in Foot(PlugOne(fs[|fs| - 1], c)) + m.Repr()
  {
    var gs := fs[..|fs| - 1];
    if gs != [] { InSpine(gs); }
    Within(m.Repr(), m.used, SpineFoot(gs), Foot(PlugOne(fs[|fs| - 1], c)), SpineFoot(fs), Foot(c));
  }

  lemma {:induction false} Within(r: set<object>, u: set<object>, a: set<object>, b: set<object>, x: set<object>,
                                  y: set<object>)
    requires a + b == x + y && r !! x + y && x + y <= u
    ensures r !! b && b <= u
  {
    assert b <= x + y;
  }

  lemma {:induction false} InSpine(fs: seq<Frame>)
    requires AllSound(fs) && fs != [] && fs[|fs| - 1].s.block != null
    ensures fs[|fs| - 1].s.block.kids in SpineFoot(fs)
  {
    SpineFootLast(fs);
  }

  lemma {:induction false} UpAt(fs: seq<Frame>, above: Ptr, root: Ptr)
    requires AllSound(fs) && fs != [] && At(root, fs[0].s)
    requires HoleHolds(fs[..|fs| - 1], RootOf(fs[|fs| - 1].s))
    requires fs[..|fs| - 1] == [] ==> above == root
    requires Reached(fs[..|fs| - 1], above)
    ensures above.idx < above.arr.Length && above.arr[above.idx] == RootOf(fs[|fs| - 1].s)
  {
    var gs, last := fs[..|fs| - 1], fs[|fs| - 1];
    if gs != [] {
      var fr := gs[|gs| - 1];
      assert fr.s.block.kids[..][Hole(fr)] == RootOf(last.s);
    }
  }

  lemma {:induction false} ArriveTop(m: Mm, root: Ptr, s: Shape)
    requires Owned(m, root, s, 0)
    ensures AllSound([]) && Walking(m, root, [], root, s)
  {
    Begin(m, root, s);
  }
}
