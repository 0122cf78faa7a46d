/** Destroying a whole trie (lib/mb_node.c), and what its accounting leaves on the ledger. */
module Destroy {
  import opened Words
  import opened Addresses
  import opened Trees
  import opened Memory
  import opened Shapes
  import opened MbNode
  import opened Usage
  import opened Walk
  import opened Search
  import opened Enumerate

  /** Units of the rules of all nodes at depth d. */
  ghost function RuleUnits(t: Tree, d: nat): nat
    decreases t, 0
  {
    if d == 0 then UpRule(|t.rules|) else KidsRuleUnits(t.kids, d - 1)
  }

  ghost function KidsRuleUnits(ks: seq<Tree>, d: nat): nat
    decreases ks, 1
  {
    if ks == [] then 0 else RuleUnits(ks[0], d) + KidsRuleUnits(ks[1..], d)
  }

  /** The number of nodes at depth d. */
  ghost function NodesAt(t: Tree, d: nat): nat
    decreases t, 0
  {
    if d == 0 then 1 else KidsNodesAt(t.kids, d - 1)
  }

  ghost function KidsNodesAt(ks: seq<Tree>, d: nat): nat
    decreases ks, 1
  {
    if ks == [] then 0 else NodesAt(ks[0], d) + KidsNodesAt(ks[1..], d)
  }

  lemma {:induction false} KidsCount(ks: seq<Tree>)
    ensures KidsNodesAt(ks, 0) == |ks|
  {
    if ks != [] { KidsCount(ks[1..]); }
  }

  /** A block is made of its rules and of one unit for each child. */
  lemma {:induction false} UnitsSplit(t: Tree, d: nat)
    ensures Units(t, d) == RuleUnits(t, d) + NodesAt(t, d + 1)
    decreases t, 0
  {
    if d == 0 { KidsCount(t.kids); } else { KidsUnitsSplit(t.kids, d - 1); }
  }

  lemma {:induction false} KidsUnitsSplit(ks: seq<Tree>, d: nat)
    ensures KidsUnits(ks, d) == KidsRuleUnits(ks, d) + KidsNodesAt(ks, d + 1)
    decreases ks, 1
  {
    if ks != [] {
      UnitsSplit(ks[0], d);
      KidsUnitsSplit(ks[1..], d);
    }
  }

  /** The ledger v is u without the units x(d) at each depth d from `depth` on. */
  ghost predicate RulesGone(u: seq<int>, v: seq<int>, t: Tree, depth: nat) {
    && |u| == |v| == MAX_LEVEL
    && forall d | 0 <= d < MAX_LEVEL :: v[d] == u[d] - if d < depth then 0 else RuleUnits(t, d - depth)
  }

  ghost predicate KidsGone(u: seq<int>, v: seq<int>, ks: seq<Tree>, depth: nat) {
    && |u| == |v| == MAX_LEVEL
    && forall d | 0 <= d < MAX_LEVEL :: v[d] == u[d] - if d < depth then 0 else KidsRuleUnits(ks, d - depth)
  }

  lemma {:induction false} OneMoreGone(u: seq<int>, v: seq<int>, w: seq<int>, ks: seq<Tree>, r: nat, depth: nat)
    requires 0 < r <= |ks| && KidsGone(u, v, ks[r..], depth) && RulesGone(v, w, ks[r - 1], depth)
    ensures KidsGone(u, w, ks[r - 1..], depth)
  {
    assert ks[r - 1..][1..] == ks[r..] && ks[r - 1..][0] == ks[r - 1];
  }

  lemma {:induction false} NodeGone(u: seq<int>, v: seq<int>, w: seq<int>, t: Tree, depth: nat)
    requires KidsGone(u, v, t.kids, depth + 1)
    requires Charged(v, w, depth, -(UpRule(|t.rules|) as int)) || (|t.rules| == 0 && w == v)
    ensures RulesGone(u, w, t, depth)
  {
  }

  // ----- destroy_subtrie --------------------------------------------------------------

  /** The places of a trie that is being destroyed, apart from what memory holds there. */
  ghost predicate Places(m: Mm, node: Ptr, s: Shape) {
    && m.Repr() !! Foot(s) && node.arr !in Foot(s) + m.Repr() && node.idx < node.arr.Length
    && BlockFoot(s.block) !! KidsFoot(s.kids) && Packed(Data(s))
  }

  /** The children that are left, the first r: lower indices belong to higher bits. */
  ghost predicate Remaining(m: Mm, s: Shape, r: nat, d: nat)
    reads m.Repr(), if s.block == null then {} else {s.block.kids}, KidsFoot(s.kids)
  {
    && m.Valid() && r <= |s.kids| && AllMatch(s.kids[..r], d) && KidsFoot(s.kids) <= m.used
    && (r > 0 ==> s.block != null && s.block.kids.Length == |s.kids|)
    && forall k | 0 <= k < r :: s.block.kids[k] == RootOf(s.kids[k])
  }

  lemma {:induction false} NoneGone(u: seq<int>, depth: nat)
    requires |u| == MAX_LEVEL
    ensures KidsGone(u, u, [], depth)
  {
    forall d: nat ensures KidsRuleUnits([], d) == 0 {
    }
  }

  lemma {:induction false} AllRemain(m: Mm, node: Ptr, s: Shape, d: nat)
    requires Owned(m, node, s, d)
    ensures Places(m, node, s) && Remaining(m, s, |s.kids|, d + 1)
    ensures node.arr[node.idx] == RootOf(s) && d < MAX_LEVEL
    ensures |s.kids| == Rank(s.ext, 0) && |Data(s).kids| == |s.kids|
    ensures Packed(Data(s)) && m.Valid() && (s.block == null ==> s.rules == [])
    ensures node.arr !in Foot(s) + m.Repr() && m.Repr() !! Foot(s) && node.idx < node.arr.Length
    ensures node.arr[node.idx].external == s.ext && node.arr[node.idx].block == s.block
    ensures node.arr[node.idx].internal == s.inl
    ensures KidsGone(m.units, m.units, Data(s).kids[|s.kids|..], d + 1)
  {
    assert s.kids[..|s.kids|] == s.kids;
    assert Data(s).kids[|s.kids|..] == [];
    NoneGone(m.units, d + 1);
    if |s.kids| > 0 {
      assert KidsOf(s.block)[0] == RootsOf(s.kids)[0];
      forall k | 0 <= k < |s.kids| ensures s.block.kids[k] == RootOf(s.kids[k]) {
        assert KidsOf(s.block)[k] == RootsOf(s.kids)[k];
      }
    }
  }

  /** The last child that is left. */
  lemma {:induction false} LastRemains(m: Mm, node: Ptr, s: Shape, r: nat, d: nat)
    requires Places(m, node, s) && Remaining(m, s, r, d) && 0 < r && d < MAX_LEVEL
    ensures s.block != null && Owned(m, Ptr(s.block.kids, r - 1), s.kids[r - 1], d)
    ensures AllMatch(s.kids[..r - 1], d) && Foot(s.kids[r - 1]) !! KidsFoot(s.kids[..r - 1])
    ensures Foot(s.kids[r - 1]) + KidsFoot(s.kids[..r - 1]) <= KidsFoot(s.kids) && s.block.kids in Foot(s)
    ensures KidsFoot(s.kids) <= Foot(s) && s.block.kids !in KidsFoot(s.kids) && r <= |s.kids|
    ensures KidsFoot(s.kids) <= m.used
    ensures s.block.kids.Length == |s.kids| && forall k | 0 <= k < r :: s.block.kids[k] == RootOf(s.kids[k])
  {
    var ks := s.kids[..r];
    assert RemoveAt(ks, r - 1) == s.kids[..r - 1];
    AllMatchRemove(ks, r - 1, d);
    ApartRemove(ks, r - 1, d);
    KidIn(s.kids, r - 1);
    assert Packed(Data(s.kids[r - 1]));
  }

  lemma {:induction false} OneLessRemains(m: Mm, s: Shape, r: nat, d: nat, was: seq<Struct>)
    requires m.Valid() && 0 < r <= |s.kids| && AllMatch(s.kids[..r - 1], d) && s.block != null
    requires KidsFoot(s.kids) <= m.used
    requires s.block.kids.Length == |s.kids| && OthersKept(Ptr(s.block.kids, r - 1), was)
    requires forall k | 0 <= k < r :: was[k] == RootOf(s.kids[k])
    ensures Remaining(m, s, r - 1, d)
  {
  }

  lemma {:induction false} LevelLeft(s: Shape, stride: nat, w: nat, depth: nat)
    requires Fits(Data(s), w) && stride < 64 && Bit(s.ext, stride) && depth + w / STRIDE < MAX_LEVEL
    ensures depth + 1 < MAX_LEVEL
  {
    ZeroBit(stride);
  }

  lemma {:induction false} StillValid(m: Mm, s: Shape, r: nat, d: nat)
    requires Remaining(m, s, r, d)
    ensures m.Valid() && m.Repr() == {m, m.lmem, m.lnode}
  {
  }

  lemma {:induction false} Cleared(node: Ptr, was: seq<Struct>)
    requires node.idx < |was| && node.arr[..] == was[node.idx := ZERO]
    ensures OthersKept(node, was)
  {
    forall j | 0 <= j < |was| && j != node.idx ensures node.arr[j] == was[j] {
      assert node.arr[..][j] == was[j];
    }
  }

  /** Where the walk goes for the child of a set bit. */
  lemma {:induction false} NextLeft(node: Ptr, s: Shape, stride: nat, w: nat, depth: nat)
    requires Packed(Data(s)) && Fits(Data(s), w) && stride < 64 && Bit(s.ext, stride) && s.block != null
    requires node.idx < node.arr.Length && node.arr[node.idx] == RootOf(s) && depth + w / STRIDE < MAX_LEVEL
    ensures 0 < Rank(s.ext, stride) <= |s.kids| && node.arr[node.idx].block == s.block
    ensures node.arr[node.idx].external == s.ext
    ensures NextChild(node, stride) == Ptr(s.block.kids, Rank(s.ext, stride) - 1)
    ensures Data(s).kids[Rank(s.ext, stride) - 1] == Data(s.kids[Rank(s.ext, stride) - 1])
    ensures w >= STRIDE && Fits(Data(s.kids[Rank(s.ext, stride) - 1]), w - STRIDE)
    ensures depth + 1 + (w - STRIDE) / STRIDE < MAX_LEVEL && depth + 1 < MAX_LEVEL
  {
    RankBounds(s.ext, stride);
  }

  /** The end: all children are gone, and the block is given back by the size of its rules. */
  lemma {:induction false} Finished(s: Shape, u: seq<int>, v: seq<int>, w: seq<int>, depth: nat)
    requires Packed(Data(s)) && Rank(s.ext, 64) <= |Data(s).kids|
    requires KidsGone(u, v, Data(s).kids[Rank(s.ext, 64)..], depth + 1)
    requires if s.block == null then s.rules == [] && w == v
             else Charged(v, w, depth, -(UpRule(PopCount(s.inl)) as int))
    ensures RulesGone(u, w, Data(s), depth)
  {
    TopRank(s.ext);
    assert Data(s).kids[0..] == Data(s).kids;
    NodeGone(u, v, w, Data(s), depth);
  }

  lemma {:induction false} NoBits()
    ensures ZERO.external == 0 && PopCount(0) == 0
  {
  }

  lemma {:induction false} TopRank(w: Word)
    ensures Rank(w, 64) == 0
  {
    Pow2Sixty4();
    ShrBelow(w, 0, 64);
  }

  /** destroy_subtrie: first the children, then the block of the node. The external bitmap is cleared before
      its bits are counted, so only the units of the rules are given back. */
  method DestroySubtrie(m: Mm, node: Ptr, depth: nat, ghost s: Shape, ghost w: nat)
    requires Owned(m, node, s, depth) && Fits(Data(s), w) && depth + w / STRIDE < MAX_LEVEL
    modifies m.Repr(), node.arr, Foot(s)
    ensures m.Valid() && RulesGone(old(m.units), m.units, Data(s), depth) && m.used == old(m.used)
    ensures node.arr[node.idx] == ZERO && OthersKept(node, old(node.arr[..]))
    decreases s
  {
    hide *;
    AllRemain(m, node, s, depth);
    ghost var r, kids := |s.kids|, Data(s).kids;
    var stride := 0;
    while stride < 64
      invariant 0 <= stride <= 64 && r == Rank(s.ext, stride)
      invariant node.arr[..] == old(node.arr[..]) && m.used == old(m.used)
      invariant Remaining(m, s, r, depth + 1) && r <= |kids|
      invariant KidsGone(old(m.units), m.units, kids[r..], depth + 1)
    {
      RankStep(s.ext, stride);
      TestIs(s.ext, stride);
      if TestBit(node.arr[node.idx].external, stride) {
        LevelLeft(s, stride, w, depth);
        LastRemains(m, node, s, r, depth + 1);
        NextLeft(node, s, stride, w, depth);
        KidsAlloc(s.kids[..r - 1]);
        ReprAlloc(m);
        ghost var u, was := m.units, s.block.kids[..];
        var next := NextChild(node, stride);
        DestroySubtrie(m, next, depth + 1, s.kids[r - 1], w - STRIDE);
        OneLessRemains(m, s, r, depth + 1, was);
        OneMoreGone(old(m.units), u, m.units, kids, r, depth + 1);
        r := r - 1;
      }
      stride := stride + 1;
    }
    StillValid(m, s, r, depth + 1);
    var b := node.arr[node.idx].block;
    var cntRules := PopCount(node.arr[node.idx].internal);
    node.arr[node.idx] := ZERO;
    ghost var u := m.units;
    NoBits();
    Cleared(node, old(node.arr[..]));
    if b != null {
      m.DeallocNode(UpRule(cntRules) + PopCount(node.arr[node.idx].external), depth);
    }
    Finished(s, old(m.units), u, m.units, depth);
  }

  // ----- what is left -----------------------------------------------------------------

  /** The ledger of an allocator that holds nothing but this trie. */
  ghost predicate OnlyThis(u: seq<int>, t: Tree) {
    |u| == MAX_LEVEL && forall d | 0 <= d < MAX_LEVEL :: u[d] == Units(t, d)
  }

  /** One unit stays on the ledger for each node below the root, on the level of its parent; nothing stays
      exactly if there is no such node. */
  lemma {:induction false} Leftover(u: seq<int>, v: seq<int>, t: Tree)
    requires OnlyThis(u, t) && RulesGone(u, v, t, 0)
    ensures forall d | 0 <= d < MAX_LEVEL :: v[d] == NodesAt(t, d + 1)
    ensures (forall d | 0 <= d < MAX_LEVEL :: v[d] == 0) <==> t.kids == []
  {
    forall d | 0 <= d < MAX_LEVEL ensures v[d] == NodesAt(t, d + 1) {
      UnitsSplit(t, d);
      if t.kids == [] { NoNodes(t, d); }
    }
    KidsCount(t.kids);
    assert v[0] == NodesAt(t, 1) == |t.kids|;
  }

  lemma {:induction false} NoNodes(t: Tree, d: nat)
    requires t.kids == []
    ensures NodesAt(t, d + 1) == 0
  {
  }

  /** The counters, too: on level 0 there are never so many children that the 32 bits hide them. */
  lemma {:induction false} CountersLeft(m: Mm, u: seq<int>, t: Tree)
    requires m.Valid() && Packed(t) && OnlyThis(u, t) && RulesGone(u, m.units, t, 0)
    ensures (forall d | 0 <= d < MAX_LEVEL :: m.lnode[d] == 0) <==> t.kids == []
    ensures t.kids == [] ==> m.node == m.mem == 0 && forall d | 0 <= d < MAX_LEVEL :: m.lmem[d] == 0
  {
    Leftover(u, m.units, t);
    KidsCount(t.kids);
    CountBounds(t);
    assert m.units[0] == NodesAt(t, 1) == |t.kids| <= 64;
    assert m.lnode[0] == Wrap(m.units[0]);
    if t.kids == [] { TotalZero(m.units); }
  }

  /** The size given back is that of the block, which is what FreeNode asks for, exactly without children. */
  lemma {:induction false} SizeGiven(t: Tree)
    ensures UpRule(|t.rules|) == NodeUnits(t) <==> t.kids == []
  {
  }
}
