/** Rebuilding the block of a node: extend_rule, extend_child, reduce_rule, reduce_child
    (lib/mb_node.c). */
module MbNode {
  import opened Words
  import opened Trees
  import opened Memory
  import opened Shapes

  // ----- split copies on sequences ----------------------------------------------------

  /** s with t written over it from index `to` on. */
  function Patch<T>(s: seq<T>, to: nat, t: seq<T>): seq<T>
    requires to + |t| <= |s|
  {
    s[..to] + t + s[to + |t|..]
  }

  /** Copying s around the slot p of d leaves s with d[p] inserted at p. */
  lemma {:induction false} PatchInsert<T>(d: seq<T>, s: seq<T>, p: nat)
    requires |d| == |s| + 1 && p <= |s|
    ensures Patch(Patch(d, 0, s[0..p]), p + 1, s[p..|s|]) == InsertAt(s, p, d[p])
  {
  }

  /** Copying s without its entry p removes at p. */
  lemma {:induction false} PatchRemove<T>(d: seq<T>, s: seq<T>, p: nat)
    requires |d| == |s| - 1 && p < |s|
    ensures Patch(Patch(d, 0, s[0..p]), p, s[p + 1..|s|]) == RemoveAt(s, p)
  {
  }

  lemma {:induction false} InsertThenSet<T>(s: seq<T>, p: nat, x: T, y: T)
    requires p <= |s|
    ensures InsertAt(s, p, x)[p := y] == InsertAt(s, p, y)
  {
  }

  /** memcpy of n words or structs. */
  method Memcpy<T>(dst: array<T>, to: nat, src: array<T>, from: nat, n: nat)
    requires to + n <= dst.Length && from + n <= src.Length && dst != src
    modifies dst
    ensures dst[..] == Patch(old(dst[..]), to, src[from..from + n])
  {
    forall j | to <= j < to + n {
      dst[j] := src[j - to + from];
    }
  }

  /** The two copies around a new slot p. */
  method CopyAround<T>(dst: array<T>, src: array<T>, p: nat)
    requires dst.Length == src.Length + 1 && p <= src.Length && dst != src
    modifies dst
    ensures dst[..] == InsertAt(src[..], p, old(dst[p]))
  {
    PatchInsert(dst[..], src[..], p);
    Memcpy(dst, 0, src, 0, p);
    Memcpy(dst, p + 1, src, p, src.Length - p);
  }

  /** The two copies that leave out the slot p. */
  method CopyWithout<T>(dst: array<T>, src: array<T>, p: nat)
    requires dst.Length == src.Length - 1 && p < src.Length && dst != src
    modifies dst
    ensures dst[..] == RemoveAt(src[..], p)
  {
    PatchRemove(dst[..], src[..], p);
    Memcpy(dst, 0, src, 0, p);
    Memcpy(dst, p, src, p + 1, src.Length - p - 1);
  }

  method SetAt<T>(dst: array<T>, p: nat, y: T, ghost s: seq<T>, ghost x: T)
    requires p < dst.Length && p <= |s| && dst[..] == InsertAt(s, p, x)
    modifies dst
    ensures dst[..] == InsertAt(s, p, y)
  {
    InsertThenSet(s, p, x, y);
    dst[p] := y;
  }

  // ----- memory -----------------------------------------------------------------------

  /** Units of the block of one node. */
  function NodeUnits(t: Tree): nat {
    |t.kids| + UpRule(|t.rules|)
  }

  /** The most children and the most rules a node can have. */
  const MAX_KIDS: nat := 64
  const MAX_RULES: nat := 63

  lemma {:induction false} CountBounds(t: Tree)
    requires Packed(t)
    ensures |t.kids| <= MAX_KIDS && |t.rules| <= MAX_RULES
  {
    Pow2Sixty4();
    PopCountBelow(t.ext, 64);
    BitsBelow(t.inl, 63);
    PopCountBelow(t.inl, 63);
  }

  lemma {:induction false} RoomForRule(t: Tree, bit: nat)
    requires Packed(t) && bit < 63 && !Bit(t.inl, bit)
    ensures |t.kids| <= MAX_KIDS && |t.rules| < MAX_RULES
  {
    CountBounds(t);
    RankSet(t.inl, bit, bit);
    Pow2Sixty4();
    BitsBelow(SetBit(t.inl, bit), 63);
    PopCountBelow(SetBit(t.inl, bit), 63);
  }

  lemma {:induction false} RoomForKid(t: Tree, bit: nat)
    requires Packed(t) && bit < 64 && !Bit(t.ext, bit)
    ensures |t.kids| < MAX_KIDS && |t.rules| <= MAX_RULES
  {
    CountBounds(t);
    RankSet(t.ext, bit, bit);
    Pow2Sixty4();
    PopCountBelow(SetBit(t.ext, bit), 64);
  }

  /** Allocates a zeroed block with room for mbCnt children and nhCnt rules. */
  method NewNode(m: Mm, mbCnt: nat, nhCnt: nat, level: nat) returns (b: Block?)
    requires m.Valid() && level < MAX_LEVEL && mbCnt <= MAX_KIDS && nhCnt <= MAX_RULES
    modifies m.Repr()
    ensures m.Valid()
    ensures Charged(old(m.units), m.units, level, UnitsOf(b))
    ensures b == null ==> mbCnt == 0 && nhCnt == 0
    ensures fresh(BlockFoot(b)) && m.used == old(m.used) + BlockFoot(b) && m.log == old(m.log) + Getting(b)
    ensures Built(b, seq(nhCnt, _ => 0), seq(mbCnt, _ => ZERO), level)
  {
    var ok := m.AllocNode(mbCnt + UpRule(nhCnt), level);
    if !ok {
      return null;
    }
    UnitsBound(mbCnt, nhCnt);
    b := new Block(mbCnt, nhCnt, level);
    m.Lend(b);
  }

  lemma {:induction false} UnitsBound(mbCnt: nat, nhCnt: nat)
    requires mbCnt <= MAX_KIDS && nhCnt <= MAX_RULES
    ensures mbCnt + UpRule(nhCnt) <= MAX_KIDS + UpRule(MAX_RULES) == MAX_UNITS
  {
    UpRuleMono(nhCnt, MAX_RULES);
    UpRuleFormula(MAX_RULES);
  }

  /** Returns a block to the allocator: the caller passes its base and its size. What the block held is lost. */
  method FreeNode(m: Mm, b: Block?, up: nat, cnt: nat, level: nat)
    requires m.Valid() && level < MAX_LEVEL && m.Repr() !! BlockFoot(b)
    requires b != null ==> BlockFoot(b) <= m.used && up == b.up && cnt == b.units && level == b.level
    modifies m.Repr(), BlockFoot(b)
    ensures m.Valid()
    ensures Charged(old(m.units), m.units, level, -(UnitsOf(b) as int))
    ensures m.used == old(m.used) - BlockFoot(b) && m.log == old(m.log) + Giving(b)
  {
    if b != null {
      m.DeallocNode(cnt, level);
      m.TakeBack(b);
    }
  }

  // ----- filling a new block ----------------------------------------------------------
  // The rule at offset -k is rules[k - 1]: copying n rules upwards from offset -o covers the
  // indices o - n .. o - 1.

  ghost function RulesArr(b: Block?): set<object> {
    if b == null then {} else {b.rules}
  }

  ghost function KidsArr(b: Block?): set<object> {
    if b == null then {} else {b.kids}
  }

  method CopyRules(ghost m: Mm, n: Block?, b: Block?, ruleNum: nat)
    requires BlockFoot(b) <= m.used
    requires |RulesOf(b)| == |RulesOf(n)| == ruleNum && RulesArr(n) !! RulesArr(b)
    modifies RulesArr(n)
    ensures RulesOf(n) == RulesOf(b)
  {
    if ruleNum != 0 {
      Memcpy(n.rules, 0, b.rules, 0, ruleNum);
    }
  }

  method InsertRule(ghost m: Mm, n: Block, b: Block?, ruleNum: nat, pos: nat, nhi: Nhi, ghost rs: seq<Nhi>,
                    ghost want: seq<Nhi>)
    requires BlockFoot(b) <= m.used
    requires RulesOf(b) == rs && |rs| == ruleNum && n.rules.Length == ruleNum + 1 && RulesArr(n) !! RulesArr(b)
    requires 1 <= pos <= ruleNum + 1 && want == InsertAt(rs, pos - 1, nhi)
    modifies n.rules
    ensures RulesOf(n) == want
  {
    ghost var x := n.rules[pos - 1];
    if ruleNum != 0 {
      CopyAround(n.rules, b.rules, pos - 1);
    } else {
      assert n.rules[..] == InsertAt(rs, 0, x);
    }
    SetAt(n.rules, pos - 1, nhi, rs, x);
  }

  method RemoveRule(ghost m: Mm, n: Block?, b: Block?, ruleNum: nat, pos: nat, ghost rs: seq<Nhi>, ghost want: seq<Nhi>)
    requires BlockFoot(b) <= m.used
    requires RulesOf(b) == rs && |rs| == ruleNum && |RulesOf(n)| == ruleNum - 1 && RulesArr(n) !! RulesArr(b)
    requires 1 <= pos <= ruleNum && want == RemoveAt(rs, pos - 1)
    modifies RulesArr(n)
    ensures RulesOf(n) == want
  {
    if ruleNum > 1 {
      CopyWithout(n.rules, b.rules, pos - 1);
    }
  }

  method CopyKids(ghost m: Mm, n: Block?, b: Block?, childNum: nat)
    requires BlockFoot(b) <= m.used
    requires |KidsOf(b)| == |KidsOf(n)| == childNum && KidsArr(n) !! KidsArr(b)
    modifies KidsArr(n)
    ensures KidsOf(n) == KidsOf(b)
  {
    if childNum != 0 {
      Memcpy(n.kids, 0, b.kids, 0, childNum);
    }
  }

  /** Leaves the slot pos as it is. */
  method InsertKid(ghost m: Mm, n: Block, b: Block?, childNum: nat, pos: nat, ghost ks: seq<Struct>,
                   ghost want: seq<Struct>)
    requires BlockFoot(b) <= m.used
    requires KidsOf(b) == ks && |ks| == childNum && n.kids.Length == childNum + 1 && KidsArr(n) !! KidsArr(b)
    requires pos <= childNum && n.kids[pos] == ZERO && want == InsertAt(ks, pos, ZERO)
    modifies n.kids
    ensures KidsOf(n) == want
  {
    if childNum != 0 {
      CopyAround(n.kids, b.kids, pos);
    }
  }

  method RemoveKid(ghost m: Mm, n: Block?, b: Block?, childNum: nat, pos: nat, ghost ks: seq<Struct>,
                   ghost want: seq<Struct>)
    requires BlockFoot(b) <= m.used
    requires KidsOf(b) == ks && |ks| == childNum && |KidsOf(n)| == childNum - 1 && KidsArr(n) !! KidsArr(b)
    requires pos < childNum && want == RemoveAt(ks, pos)
    modifies KidsArr(n)
    ensures KidsOf(n) == want
  {
    if childNum > 1 {
      CopyWithout(n.kids, b.kids, pos);
    }
  }

  // ----- new blocks -------------------------------------------------------------------

  /** A new block with the children of b and room for nhCnt rules. */
  method WithKids(m: Mm, b: Block?, childNum: nat, nhCnt: nat, level: nat) returns (n: Block?)
    requires m.Valid() && level < MAX_LEVEL && m.Repr() !! BlockFoot(b) && |KidsOf(b)| == childNum
    requires childNum <= MAX_KIDS && nhCnt <= MAX_RULES
    requires BlockFoot(b) <= m.used
    modifies m.Repr()
    ensures m.Valid() && m.log == old(m.log) + Getting(n)
    ensures Charged(old(m.units), m.units, level, UnitsOf(n)) && m.used == old(m.used) + BlockFoot(n)
    ensures fresh(BlockFoot(n)) && |RulesOf(n)| == nhCnt
    ensures Built(n, RulesOf(n), KidsOf(b), level)
  {
    n := NewNode(m, childNum, nhCnt, level);
    ghost var rs := RulesOf(n);
    CopyKids(m, n, b, childNum);
    assert RulesOf(n) == rs;
  }

  /** A new block with the rules of b and room for mbCnt children. */
  method WithRules(m: Mm, b: Block?, mbCnt: nat, ruleNum: nat, level: nat) returns (n: Block?)
    requires m.Valid() && level < MAX_LEVEL && m.Repr() !! BlockFoot(b) && |RulesOf(b)| == ruleNum
    requires mbCnt <= MAX_KIDS && ruleNum <= MAX_RULES
    requires BlockFoot(b) <= m.used
    modifies m.Repr()
    ensures m.Valid() && m.log == old(m.log) + Getting(n)
    ensures Charged(old(m.units), m.units, level, UnitsOf(n)) && m.used == old(m.used) + BlockFoot(n)
    ensures fresh(BlockFoot(n))
    ensures Built(n, RulesOf(b), seq(mbCnt, _ => ZERO), level)
  {
    n := NewNode(m, mbCnt, ruleNum, level);
    ghost var ks := KidsOf(n);
    CopyRules(m, n, b, ruleNum);
    assert KidsOf(n) == ks;
  }

  method ExtendedRules(m: Mm, b: Block?, childNum: nat, ruleNum: nat, pos: nat, level: nat, nhi: Nhi,
                       ghost rs: seq<Nhi>, ghost ks: seq<Struct>, ghost want: seq<Nhi>)
    returns (n: Block)
    requires m.Valid() && level < MAX_LEVEL && m.Repr() !! BlockFoot(b)
    requires RulesOf(b) == rs && KidsOf(b) == ks && |rs| == ruleNum && |ks| == childNum
    requires 1 <= pos <= ruleNum + 1 && want == InsertAt(rs, pos - 1, nhi)
    requires childNum <= MAX_KIDS && ruleNum < MAX_RULES
    requires BlockFoot(b) <= m.used
    modifies m.Repr()
    ensures m.Valid() && m.log == old(m.log) + Getting(n)
    ensures Charged(old(m.units), m.units, level, UnitsOf(n)) && m.used == old(m.used) + BlockFoot(n)
    ensures fresh(BlockFoot(n)) && Built(n, want, ks, level)
  {
    n := WithKids(m, b, childNum, ruleNum + 1, level);
    InsertRule(m, n, b, ruleNum, pos, nhi, rs, want);
    assert KidsOf(n) == ks;
  }

  method ReducedRules(m: Mm, b: Block?, childNum: nat, ruleNum: nat, pos: nat, level: nat,
                      ghost rs: seq<Nhi>, ghost ks: seq<Struct>, ghost want: seq<Nhi>)
    returns (n: Block?)
    requires m.Valid() && level < MAX_LEVEL && m.Repr() !! BlockFoot(b)
    requires RulesOf(b) == rs && KidsOf(b) == ks && |rs| == ruleNum && |ks| == childNum
    requires 1 <= pos <= ruleNum && want == RemoveAt(rs, pos - 1)
    requires childNum <= MAX_KIDS && ruleNum <= MAX_RULES
    requires BlockFoot(b) <= m.used
    modifies m.Repr()
    ensures m.Valid() && m.log == old(m.log) + Getting(n)
    ensures Charged(old(m.units), m.units, level, UnitsOf(n)) && m.used == old(m.used) + BlockFoot(n)
    ensures fresh(BlockFoot(n)) && Built(n, want, ks, level)
  {
    n := WithKids(m, b, childNum, ruleNum - 1, level);
    RemoveRule(m, n, b, ruleNum, pos, rs, want);
    assert KidsOf(n) == ks;
  }

  method ExtendedKids(m: Mm, b: Block?, childNum: nat, ruleNum: nat, pos: nat, level: nat,
                      ghost rs: seq<Nhi>, ghost ks: seq<Struct>, ghost want: seq<Struct>)
    returns (n: Block)
    requires m.Valid() && level < MAX_LEVEL && m.Repr() !! BlockFoot(b)
    requires RulesOf(b) == rs && KidsOf(b) == ks && |rs| == ruleNum && |ks| == childNum
    requires pos <= childNum && want == InsertAt(ks, pos, ZERO)
    requires childNum < MAX_KIDS && ruleNum <= MAX_RULES
    requires BlockFoot(b) <= m.used
    modifies m.Repr()
    ensures m.Valid() && m.log == old(m.log) + Getting(n)
    ensures Charged(old(m.units), m.units, level, UnitsOf(n)) && m.used == old(m.used) + BlockFoot(n)
    ensures fresh(BlockFoot(n)) && Built(n, rs, want, level)
  {
    n := WithRules(m, b, childNum + 1, ruleNum, level);
    InsertKid(m, n, b, childNum, pos, ks, want);
    assert RulesOf(n) == rs;
  }

  method ReducedKids(m: Mm, b: Block?, childNum: nat, ruleNum: nat, pos: nat, level: nat,
                     ghost rs: seq<Nhi>, ghost ks: seq<Struct>, ghost want: seq<Struct>)
    returns (n: Block?)
    requires m.Valid() && level < MAX_LEVEL && m.Repr() !! BlockFoot(b)
    requires RulesOf(b) == rs && KidsOf(b) == ks && |rs| == ruleNum && |ks| == childNum
    requires pos < childNum && want == RemoveAt(ks, pos)
    requires childNum <= MAX_KIDS && ruleNum <= MAX_RULES
    requires BlockFoot(b) <= m.used
    modifies m.Repr()
    ensures m.Valid() && m.log == old(m.log) + Getting(n)
    ensures Charged(old(m.units), m.units, level, UnitsOf(n)) && m.used == old(m.used) + BlockFoot(n)
    ensures fresh(BlockFoot(n)) && Built(n, rs, want, level)
  {
    n := WithRules(m, b, childNum - 1, ruleNum, level);
    RemoveKid(m, n, b, childNum, pos, ks, want);
    assert RulesOf(n) == rs;
  }

  // ----- the four operations ----------------------------------------------------------

  /** The program owns the trie s, its root struct at `node`, and the allocator m. */
  ghost predicate Owned(m: Mm, node: Ptr, s: Shape, level: nat)
    reads m.Repr(), node.arr, Foot(s)
  {
    Owns(m, node, s, level) == true
  }

  ghost predicate Owns(m: Mm, node: Ptr, s: Shape, level: nat)
    reads m.Repr(), node.arr, Foot(s)
  {
    && m.Valid() && level < MAX_LEVEL
    && At(node, s) && Match(s, level) && Packed(Data(s))
    && m.Repr() !! Foot(s) && node.arr !in Foot(s) + m.Repr() && Foot(s) <= m.used
  }

  /** Frees the old block of the node and installs the new one. */
  method SwapBlock(m: Mm, node: Ptr, n: Block?, childNum: nat, ruleNum: nat, level: nat, ghost b: Block?)
    requires m.Valid() && level < MAX_LEVEL
    requires node.idx < node.arr.Length && node.arr[node.idx].block == b
    requires b != null ==> b.level == level && b.up == UpRule(ruleNum) && b.units == childNum + UpRule(ruleNum)
    requires BlockFoot(b) <= m.used && m.Repr() !! BlockFoot(b) && node.arr !in BlockFoot(b) + m.Repr()
    modifies m.Repr(), node.arr, BlockFoot(b)
    ensures m.Valid() && m.log == old(m.log) + Giving(b)
    ensures Charged(old(m.units), m.units, level, -(UnitsOf(b) as int)) && m.used == old(m.used) - BlockFoot(b)
    ensures node.arr[node.idx] == old(node.arr[node.idx]).(block := n)
    ensures OthersKept(node, old(node.arr[..]))
  {
    if node.arr[node.idx].block != null {
      FreeNode(m, node.arr[node.idx].block, UpRule(ruleNum), childNum + UpRule(ruleNum), level);
    }
    node.arr[node.idx] := node.arr[node.idx].(block := n);
  }

  /** The other structs next to the one at `node` are those of the array contents `was`. */
  ghost predicate OthersKept(node: Ptr, was: seq<Struct>)
    reads node.arr
  {
    node.arr.Length == |was| && forall j | 0 <= j < |was| && j != node.idx :: node.arr[j] == was[j]
  }

  /** What a node must be for its block to be rebuilt. */
  ghost predicate Whole(m: Mm, node: Ptr, b: Block?, rules: seq<Nhi>, kids: seq<Struct>, level: nat)
    reads m.Repr(), node.arr, BlockFoot(b)
  {
    && m.Valid() && level < MAX_LEVEL && |kids| <= MAX_KIDS && |rules| <= MAX_RULES
    && node.idx < node.arr.Length && node.arr[node.idx].block == b
    && Built(b, rules, kids, level)
    && PopCount(node.arr[node.idx].internal) == |rules| && PopCount(node.arr[node.idx].external) == |kids|
    && m.Repr() !! BlockFoot(b) && node.arr !in BlockFoot(b) + m.Repr() && BlockFoot(b) <= m.used
  }

  /** Sets an internal bit; pos is the offset of its rule afterwards. */
  method MarkInternal(node: Ptr, bit: nat, ghost v: Struct) returns (childNum: nat, ruleNum: nat, pos: nat)
    requires node.idx < node.arr.Length && node.arr[node.idx] == v
    requires bit < 64 && !Bit(v.internal, bit)
    modifies node.arr
    ensures childNum == PopCount(v.external) && ruleNum == PopCount(v.internal)
    ensures pos == Rank(v.internal, bit) + 1
    ensures node.arr[node.idx] == Struct(v.external, SetBit(v.internal, bit), v.block)
    ensures OthersKept(node, old(node.arr[..]))
  {
    RankSet(v.internal, bit, bit);
    childNum := PopCount(node.arr[node.idx].external);
    ruleNum := PopCount(node.arr[node.idx].internal);
    node.arr[node.idx] := node.arr[node.idx].(internal := SetBit(node.arr[node.idx].internal, bit));
    pos := Rank(node.arr[node.idx].internal, bit);
  }

  lemma {:induction false} BlockIs(b: Block?, rules: seq<Nhi>, kids: seq<Struct>, level: nat)
    requires Built(b, rules, kids, level)
    ensures RulesOf(b) == rules && KidsOf(b) == kids && (b == null ==> rules == [] && kids == [])
    ensures b != null ==> b.level == level && b.up == UpRule(|rules|) && b.units == |kids| + UpRule(|rules|)
  {
  }

  /** The body of extend_rule; newRules is what the rules become. */
  method RebuildExtendRule(m: Mm, node: Ptr, bit: nat, level: nat, nhi: Nhi, ghost v: Struct,
                           ghost rules: seq<Nhi>, ghost kids: seq<Struct>, ghost newRules: seq<Nhi>)
    returns (n: Block)
    requires Whole(m, node, v.block, rules, kids, level) && node.arr[node.idx] == v
    requires bit < 64 && !Bit(v.internal, bit)
    requires Rank(v.internal, bit) <= |rules| && newRules == InsertAt(rules, Rank(v.internal, bit), nhi)
    requires |newRules| <= MAX_RULES
    modifies m.Repr(), node.arr, BlockFoot(v.block)
    ensures m.Valid() && fresh(BlockFoot(n))
    ensures Charged(old(m.units), m.units, level, UnitsOf(n) - UnitsOf(v.block))
    ensures m.used == old(m.used) + BlockFoot(n) - BlockFoot(v.block)
    ensures m.log == old(m.log) + Getting(n) + Giving(v.block)
    ensures Built(n, newRules, kids, level)
    ensures node.arr[node.idx] == Struct(v.external, SetBit(v.internal, bit), n)
    ensures OthersKept(node, old(node.arr[..]))
  {
    hide IsBuilt, Rank, PopCount;
    BlockIs(v.block, rules, kids, level);
    var childNum, ruleNum, pos := MarkInternal(node, bit, v);
    ghost var u0 := m.units;
    n := ExtendedRules(m, node.arr[node.idx].block, childNum, ruleNum, pos, level, nhi, rules, kids, newRules);
    ghost var u1 := m.units;
    assert Built(n, newRules, kids, level);
    assert BlockFoot(n) !! m.Repr() + {node.arr} + BlockFoot(v.block);
    SwapBlock(m, node, n, childNum, ruleNum, level, v.block);
    assert Built(n, newRules, kids, level);
    ChargedTwice(u0, u1, m.units, level, UnitsOf(n), -(UnitsOf(v.block) as int));
  }

  /** A block and the tries in it make up a trie. */
  lemma {:induction false} Assemble(s: Shape, d: nat)
    requires Built(s.block, s.rules, RootsOf(s.kids), d) && AllMatch(s.kids, d + 1)
    requires BlockFoot(s.block) !! KidsFoot(s.kids)
    ensures Match(s, d)
  {
  }

  /** A trie that the program owns, as a block and the tries in it. */
  lemma {:induction false} Disassemble(m: Mm, node: Ptr, s: Shape, level: nat)
    requires Owned(m, node, s, level)
    ensures Packed(Data(s)) && |s.kids| <= MAX_KIDS && |s.rules| <= MAX_RULES && node.idx < node.arr.Length
    ensures Whole(m, node, s.block, s.rules, RootsOf(s.kids), level) && node.arr[node.idx] == RootOf(s)
    ensures AllMatch(s.kids, level + 1) && allocated(KidsFoot(s.kids)) && level < MAX_LEVEL
    ensures KidsFoot(s.kids) !! m.Repr() + {node.arr} + BlockFoot(s.block) && KidsFoot(s.kids) <= m.used
    ensures Foot(s) == BlockFoot(s.block) + KidsFoot(s.kids) && UnitsOf(s.block) == NodeUnits(Data(s))
  {
    CountBounds(Data(s));
    KidsAlloc(s.kids);
  }

  lemma {:induction false} Reassemble(m: Mm, node: Ptr, s: Shape, level: nat)
    requires m.Valid() && level < MAX_LEVEL && At(node, s) && Packed(Data(s))
    requires Built(s.block, s.rules, RootsOf(s.kids), level) && AllMatch(s.kids, level + 1)
    requires KidsFoot(s.kids) !! m.Repr() + {node.arr} + BlockFoot(s.block) && KidsFoot(s.kids) <= m.used
    requires BlockFoot(s.block) !! m.Repr() + {node.arr} && BlockFoot(s.block) <= m.used
    ensures Owned(m, node, s, level) && Foot(s) == BlockFoot(s.block) + KidsFoot(s.kids)
    ensures UnitsOf(s.block) == NodeUnits(Data(s))
  {
    Assemble(s, level);
  }

  lemma {:induction false} GrownRules(s: Shape, bit: nat, nhi: Nhi, n: Block?) returns (s': Shape)
    requires Packed(Data(s)) && bit < 63 && !Bit(s.inl, bit)
    ensures Rank(s.inl, bit) <= |s.rules| < MAX_RULES && |s'.rules| == |s.rules| + 1
    ensures s' == Shape(n, s.ext, SetBit(s.inl, bit), InsertAt(s.rules, Rank(s.inl, bit), nhi), s.kids)
    ensures Data(s') == AddRule(Data(s), bit, nhi) && Packed(Data(s'))
  {
    RoomForRule(Data(s), bit);
    RankBounds(s.inl, bit);
    RankSet(s.inl, bit, bit);
    s' := Shape(n, s.ext, SetBit(s.inl, bit), InsertAt(s.rules, Rank(s.inl, bit), nhi), s.kids);
    AddRuleKeeps(Data(s), bit, nhi, 0);
  }

  lemma {:induction false} ShrunkRules(s: Shape, bit: nat, n: Block?) returns (s': Shape)
    requires Packed(Data(s)) && Bit(s.inl, bit)
    ensures bit < 63 && 1 <= Rank(s.inl, bit) <= |s.rules|
    ensures s' == Shape(n, s.ext, ClearBit(s.inl, bit), RemoveAt(s.rules, Rank(s.inl, bit) - 1), s.kids)
    ensures Data(s') == DropRule(Data(s), bit) && Packed(Data(s'))
  {
    RankBounds(s.inl, bit);
    s' := Shape(n, s.ext, ClearBit(s.inl, bit), RemoveAt(s.rules, Rank(s.inl, bit) - 1), s.kids);
    DropRuleKeeps(Data(s), bit, 0);
  }

  method ExtendRule(m: Mm, node: Ptr, bit: nat, level: nat, nhi: Nhi, ghost s: Shape)
    returns (ghost s': Shape)
    requires Owned(m, node, s, level) && bit < 63 && !Bit(s.inl, bit)
    modifies m.Repr(), node.arr, BlockFoot(s.block)
    ensures Owned(m, node, s', level) && fresh(Foot(s') - Foot(s))
    ensures OthersKept(node, old(node.arr[..]))
    ensures Data(s') == AddRule(Data(s), bit, nhi)
    ensures Charged(old(m.units), m.units, level, NodeUnits(Data(s')) - NodeUnits(Data(s)))
    ensures m.used == old(m.used) - BlockFoot(s.block) + BlockFoot(s'.block)
    ensures m.log == old(m.log) + Getting(s'.block) + Giving(s.block)
  {
    hide Packs, Matches, AllMatches, IsBuilt, Owns, Data, Foot, KidsFoot, RootsOf, Rank, SetBit, PopCount;
    Disassemble(m, node, s, level);
    s' := GrownRules(s, bit, nhi, null);
    var n := RebuildExtendRule(m, node, bit, level, nhi, RootOf(s), s.rules, RootsOf(s.kids), s'.rules);
    s' := GrownRules(s, bit, nhi, n);
    Reassemble(m, node, s', level);
  }

  /** Clears an internal bit; pos is the offset its rule had. */
  method UnmarkInternal(node: Ptr, bit: nat, ghost v: Struct) returns (childNum: nat, ruleNum: nat, pos: nat)
    requires node.idx < node.arr.Length && node.arr[node.idx] == v
    requires bit < 64 && Bit(v.internal, bit)
    modifies node.arr
    ensures childNum == PopCount(v.external) && ruleNum == PopCount(v.internal)
    ensures pos == Rank(v.internal, bit)
    ensures node.arr[node.idx] == Struct(v.external, ClearBit(v.internal, bit), v.block)
    ensures OthersKept(node, old(node.arr[..]))
  {
    childNum := PopCount(node.arr[node.idx].external);
    ruleNum := PopCount(node.arr[node.idx].internal);
    pos := Rank(node.arr[node.idx].internal, bit);
    node.arr[node.idx] := node.arr[node.idx].(internal := ClearBit(node.arr[node.idx].internal, bit));
  }

  /** The body of reduce_rule; newRules is what the rules become. */
  method RebuildReduceRule(m: Mm, node: Ptr, bit: nat, level: nat, ghost v: Struct,
                           ghost rules: seq<Nhi>, ghost kids: seq<Struct>, ghost newRules: seq<Nhi>)
    returns (n: Block?)
    requires Whole(m, node, v.block, rules, kids, level) && node.arr[node.idx] == v
    requires bit < 64 && Bit(v.internal, bit)
    requires 1 <= Rank(v.internal, bit) <= |rules| && newRules == RemoveAt(rules, Rank(v.internal, bit) - 1)
    modifies m.Repr(), node.arr, BlockFoot(v.block)
    ensures m.Valid() && fresh(BlockFoot(n))
    ensures Charged(old(m.units), m.units, level, UnitsOf(n) - UnitsOf(v.block))
    ensures m.used == old(m.used) + BlockFoot(n) - BlockFoot(v.block)
    ensures m.log == old(m.log) + Getting(n) + Giving(v.block)
    ensures Built(n, newRules, kids, level)
    ensures node.arr[node.idx] == Struct(v.external, ClearBit(v.internal, bit), n)
    ensures OthersKept(node, old(node.arr[..]))
  {
    hide IsBuilt, Rank, PopCount;
    BlockIs(v.block, rules, kids, level);
    var childNum, ruleNum, pos := UnmarkInternal(node, bit, v);
    ghost var u0 := m.units;
    n := ReducedRules(m, node.arr[node.idx].block, childNum, ruleNum, pos, level, rules, kids, newRules);
    ghost var u1 := m.units;
    assert Built(n, newRules, kids, level);
    assert BlockFoot(n) !! m.Repr() + {node.arr} + BlockFoot(v.block);
    SwapBlock(m, node, n, childNum, ruleNum, level, v.block);
    assert Built(n, newRules, kids, level);
    ChargedTwice(u0, u1, m.units, level, UnitsOf(n), -(UnitsOf(v.block) as int));
  }

  method ReduceRule(m: Mm, node: Ptr, bit: nat, level: nat, ghost s: Shape)
    returns (ghost s': Shape)
    requires Owned(m, node, s, level) && Bit(s.inl, bit)
    modifies m.Repr(), node.arr, BlockFoot(s.block)
    ensures Owned(m, node, s', level) && fresh(Foot(s') - Foot(s))
    ensures OthersKept(node, old(node.arr[..]))
    ensures Data(s') == DropRule(Data(s), bit)
    ensures Charged(old(m.units), m.units, level, NodeUnits(Data(s')) - NodeUnits(Data(s)))
    ensures m.used == old(m.used) - BlockFoot(s.block) + BlockFoot(s'.block)
    ensures m.log == old(m.log) + Getting(s'.block) + Giving(s.block)
  {
    hide Packs, Matches, AllMatches, IsBuilt, Owns, Data, Foot, KidsFoot, RootsOf, Rank, ClearBit, PopCount;
    Disassemble(m, node, s, level);
    s' := ShrunkRules(s, bit, null);
    var n := RebuildReduceRule(m, node, bit, level, RootOf(s), s.rules, RootsOf(s.kids), s'.rules);
    s' := ShrunkRules(s, bit, n);
    Reassemble(m, node, s', level);
  }

  /** Sets an external bit; pos is the offset of its child afterwards. */
  method MarkExternal(node: Ptr, bit: nat, ghost v: Struct) returns (childNum: nat, ruleNum: nat, pos: nat)
    requires node.idx < node.arr.Length && node.arr[node.idx] == v
    requires bit < 64 && !Bit(v.external, bit)
    modifies node.arr
    ensures childNum == PopCount(v.external) && ruleNum == PopCount(v.internal)
    ensures pos == Rank(v.external, bit)
    ensures node.arr[node.idx] == Struct(SetBit(v.external, bit), v.internal, v.block)
    ensures OthersKept(node, old(node.arr[..]))
  {
    RankSet(v.external, bit, bit);
    childNum := PopCount(node.arr[node.idx].external);
    ruleNum := PopCount(node.arr[node.idx].internal);
    node.arr[node.idx] := node.arr[node.idx].(external := SetBit(node.arr[node.idx].external, bit));
    pos := CountOnes(node.arr[node.idx].external, bit);
  }

  /** The body of extend_child; newKids is what the child structs become. */
  method RebuildExtendChild(m: Mm, node: Ptr, bit: nat, level: nat, ghost v: Struct,
                            ghost rules: seq<Nhi>, ghost kids: seq<Struct>, ghost newKids: seq<Struct>)
    returns (n: Block, pos: nat)
    requires Whole(m, node, v.block, rules, kids, level) && node.arr[node.idx] == v
    requires bit < 64 && !Bit(v.external, bit)
    requires Rank(v.external, bit) <= |kids| && newKids == InsertAt(kids, Rank(v.external, bit), ZERO)
    requires |newKids| <= MAX_KIDS
    modifies m.Repr(), node.arr, BlockFoot(v.block)
    ensures m.Valid() && fresh(BlockFoot(n)) && pos == Rank(v.external, bit)
    ensures Charged(old(m.units), m.units, level, UnitsOf(n) - UnitsOf(v.block))
    ensures m.used == old(m.used) + BlockFoot(n) - BlockFoot(v.block)
    ensures m.log == old(m.log) + Getting(n) + Giving(v.block)
    ensures Built(n, rules, newKids, level)
    ensures node.arr[node.idx] == Struct(SetBit(v.external, bit), v.internal, n)
    ensures OthersKept(node, old(node.arr[..]))
  {
    hide IsBuilt, Rank, PopCount;
    BlockIs(v.block, rules, kids, level);
    var childNum, ruleNum, p := MarkExternal(node, bit, v);
    pos := p;
    ghost var u0 := m.units;
    n := ExtendedKids(m, node.arr[node.idx].block, childNum, ruleNum, pos, level, rules, kids, newKids);
    ghost var u1 := m.units;
    assert Built(n, rules, newKids, level);
    assert BlockFoot(n) !! m.Repr() + {node.arr} + BlockFoot(v.block);
    SwapBlock(m, node, n, childNum, ruleNum, level, v.block);
    assert Built(n, rules, newKids, level);
    ChargedTwice(u0, u1, m.units, level, UnitsOf(n), -(UnitsOf(v.block) as int));
  }

  lemma {:induction false} RootsInsert(ks: seq<Shape>, k: nat, s: Shape)
    requires k <= |ks|
    ensures RootsOf(InsertAt(ks, k, s)) == InsertAt(RootsOf(ks), k, RootOf(s))
    ensures Datas(InsertAt(ks, k, s)) == InsertAt(Datas(ks), k, Data(s))
  {
  }

  lemma {:induction false} RootsRemove(ks: seq<Shape>, k: nat)
    requires k < |ks|
    ensures RootsOf(RemoveAt(ks, k)) == RemoveAt(RootsOf(ks), k)
    ensures Datas(RemoveAt(ks, k)) == RemoveAt(Datas(ks), k)
  {
  }

  /** The node with an empty trie put in at the rank of `bit`. */
  lemma {:induction false} GrownKids(s: Shape, bit: nat, d: nat, n: Block?) returns (s': Shape)
    requires AllMatch(s.kids, d) && Packed(Data(s)) && bit < 64 && !Bit(s.ext, bit)
    ensures Rank(s.ext, bit) <= |s.kids| < MAX_KIDS && |s'.kids| == |s.kids| + 1
    ensures s' == Shape(n, SetBit(s.ext, bit), s.inl, s.rules, InsertAt(s.kids, Rank(s.ext, bit), NONE))
    ensures AllMatch(s'.kids, d) && KidsFoot(s'.kids) == KidsFoot(s.kids)
    ensures RootsOf(s'.kids) == InsertAt(RootsOf(s.kids), Rank(s.ext, bit), ZERO)
    ensures Data(s') == AddChild(Data(s), bit, EMPTY) && Packed(Data(s'))
  {
    RoomForKid(Data(s), bit);
    RankBounds(s.ext, bit);
    RankSet(s.ext, bit, bit);
    EmptyShape(d);
    var k := Rank(s.ext, bit);
    s' := Shape(n, SetBit(s.ext, bit), s.inl, s.rules, InsertAt(s.kids, k, NONE));
    RootsInsert(s.kids, k, NONE);
    KidsFootInsert(s.kids, k, NONE);
    AllMatchInsert(s.kids, k, NONE, d);
    EmptyTree();
    AddChildKeeps(Data(s), bit, EMPTY, 0);
  }

  /** Returns the place of the new, empty child. */
  method ExtendChild(m: Mm, node: Ptr, level: nat, bit: nat, ghost s: Shape)
    returns (child: Ptr, ghost s': Shape)
    requires Owned(m, node, s, level) && bit < 64 && !Bit(s.ext, bit)
    modifies m.Repr(), node.arr, BlockFoot(s.block)
    ensures Owned(m, node, s', level) && fresh(Foot(s') - Foot(s))
    ensures OthersKept(node, old(node.arr[..]))
    ensures Data(s') == AddChild(Data(s), bit, EMPTY) && s'.ext == SetBit(s.ext, bit)
    ensures s'.block != null && child == Ptr(s'.block.kids, Rank(s.ext, bit))
    ensures Rank(s.ext, bit) <= |s.kids| && s'.kids == InsertAt(s.kids, Rank(s.ext, bit), NONE)
    ensures Charged(old(m.units), m.units, level, NodeUnits(Data(s')) - NodeUnits(Data(s)))
    ensures m.used == old(m.used) - BlockFoot(s.block) + BlockFoot(s'.block)
    ensures m.log == old(m.log) + Getting(s'.block) + Giving(s.block)
  {
    hide Packs, Matches, AllMatches, IsBuilt, Owns, Data, Foot, KidsFoot, RootsOf, Rank, SetBit, PopCount;
    Disassemble(m, node, s, level);
    s' := GrownKids(s, bit, level + 1, null);
    var n, pos := RebuildExtendChild(m, node, bit, level, RootOf(s), s.rules, RootsOf(s.kids), RootsOf(s'.kids));
    s' := GrownKids(s, bit, level + 1, n);
    Reassemble(m, node, s', level);
    child := Ptr(n.kids, pos);
  }

  /** Clears an external bit; pos is the offset its child had. */
  method UnmarkExternal(node: Ptr, bit: nat, ghost v: Struct) returns (childNum: nat, ruleNum: nat, pos: nat)
    requires node.idx < node.arr.Length && node.arr[node.idx] == v
    requires bit < 64 && Bit(v.external, bit)
    modifies node.arr
    ensures childNum == PopCount(v.external) && ruleNum == PopCount(v.internal)
    ensures pos == Rank(v.external, bit) - 1
    ensures node.arr[node.idx] == Struct(ClearBit(v.external, bit), v.internal, v.block)
    ensures OthersKept(node, old(node.arr[..]))
  {
    RankBounds(v.external, bit);
    childNum := PopCount(node.arr[node.idx].external);
    ruleNum := PopCount(node.arr[node.idx].internal);
    pos := CountOnes(node.arr[node.idx].external, bit);
    node.arr[node.idx] := node.arr[node.idx].(external := ClearBit(node.arr[node.idx].external, bit));
  }

  /** The body of reduce_child; newKids is what the child structs become. */
  method RebuildReduceChild(m: Mm, node: Ptr, bit: nat, level: nat, ghost v: Struct,
                            ghost rules: seq<Nhi>, ghost kids: seq<Struct>, ghost newKids: seq<Struct>)
    returns (n: Block?)
    requires Whole(m, node, v.block, rules, kids, level) && node.arr[node.idx] == v
    requires bit < 64 && Bit(v.external, bit)
    requires 1 <= Rank(v.external, bit) <= |kids| && newKids == RemoveAt(kids, Rank(v.external, bit) - 1)
    modifies m.Repr(), node.arr, BlockFoot(v.block)
    ensures m.Valid() && fresh(BlockFoot(n))
    ensures Charged(old(m.units), m.units, level, UnitsOf(n) - UnitsOf(v.block))
    ensures m.used == old(m.used) + BlockFoot(n) - BlockFoot(v.block)
    ensures m.log == old(m.log) + Getting(n) + Giving(v.block)
    ensures Built(n, rules, newKids, level)
    ensures node.arr[node.idx] == Struct(ClearBit(v.external, bit), v.internal, n)
    ensures OthersKept(node, old(node.arr[..]))
  {
    hide IsBuilt, Rank, PopCount;
    BlockIs(v.block, rules, kids, level);
    var childNum, ruleNum, pos := UnmarkExternal(node, bit, v);
    ghost var u0 := m.units;
    n := ReducedKids(m, node.arr[node.idx].block, childNum, ruleNum, pos, level, rules, kids, newKids);
    ghost var u1 := m.units;
    assert Built(n, rules, newKids, level);
    assert BlockFoot(n) !! m.Repr() + {node.arr} + BlockFoot(v.block);
    SwapBlock(m, node, n, childNum, ruleNum, level, v.block);
    assert Built(n, rules, newKids, level);
    ChargedTwice(u0, u1, m.units, level, UnitsOf(n), -(UnitsOf(v.block) as int));
  }

  /** The node without the trie under `bit`. */
  lemma {:induction false} ShrunkKids(s: Shape, bit: nat, d: nat, n: Block?) returns (s': Shape)
    requires AllMatch(s.kids, d) && Packed(Data(s)) && Bit(s.ext, bit) && bit < 64
    ensures 1 <= Rank(s.ext, bit) <= |s.kids|
    ensures s' == Shape(n, ClearBit(s.ext, bit), s.inl, s.rules, RemoveAt(s.kids, Rank(s.ext, bit) - 1))
    ensures AllMatch(s'.kids, d) && KidsFoot(s'.kids) <= KidsFoot(s.kids)
    ensures RootsOf(s'.kids) == RemoveAt(RootsOf(s.kids), Rank(s.ext, bit) - 1)
    ensures Data(s') == DropChild(Data(s), bit) && Packed(Data(s'))
  {
    RankBounds(s.ext, bit);
    var k := Rank(s.ext, bit) - 1;
    s' := Shape(n, ClearBit(s.ext, bit), s.inl, s.rules, RemoveAt(s.kids, k));
    RootsRemove(s.kids, k);
    KidsFootRemove(s.kids, k);
    AllMatchRemove(s.kids, k, d);
    DropChildKeeps(Data(s), bit, 0);
  }

  method ReduceChild(m: Mm, node: Ptr, bit: nat, level: nat, ghost s: Shape)
    returns (ghost s': Shape)
    requires Owned(m, node, s, level) && bit < 64 && Bit(s.ext, bit)
    modifies m.Repr(), node.arr, BlockFoot(s.block)
    ensures Owned(m, node, s', level) && fresh(Foot(s') - Foot(s))
    ensures OthersKept(node, old(node.arr[..]))
    ensures Data(s') == DropChild(Data(s), bit)
    ensures Charged(old(m.units), m.units, level, NodeUnits(Data(s')) - NodeUnits(Data(s)))
    ensures m.used == old(m.used) - BlockFoot(s.block) + BlockFoot(s'.block)
    ensures m.log == old(m.log) + Getting(s'.block) + Giving(s.block)
  {
    hide Packs, Matches, AllMatches, IsBuilt, Owns, Data, Foot, KidsFoot, RootsOf, Rank, ClearBit, PopCount;
    Disassemble(m, node, s, level);
    s' := ShrunkKids(s, bit, level + 1, null);
    var n := RebuildReduceChild(m, node, bit, level, RootOf(s), s.rules, RootsOf(s.kids), RootsOf(s'.kids));
    s' := ShrunkKids(s, bit, level + 1, n);
    Reassemble(m, node, s', level);
  }

  /** *pointer_to_nhi(node, bit) = nhi. */
  method OverwriteRule(m: Mm, node: Ptr, bit: nat, level: nat, nhi: Nhi, ghost s: Shape)
    returns (ghost s': Shape)
    requires Owned(m, node, s, level) && Bit(s.inl, bit)
    modifies RulesArr(s.block)
    ensures Owned(m, node, s', level) && Foot(s') == Foot(s) && RootOf(s') == RootOf(s)
    ensures Data(s') == PutRule(Data(s), bit, nhi)
    ensures NodeUnits(Data(s')) == NodeUnits(Data(s))
  {
    RankBounds(s.inl, bit);
    KidsAlloc(s.kids);
    ghost var k := Rank(s.inl, bit) - 1;
    var b := node.arr[node.idx].block;
    b.rules[CountOnes(node.arr[node.idx].internal, bit)] := nhi;
    assert AllMatch(s.kids, level + 1);
    s' := s.(rules := s.rules[k := nhi]);
    Assemble(s', level);
    PutRuleKeeps(Data(s), bit, nhi, 0);
    assert Data(s') == PutRule(Data(s), bit, nhi);
  }
}
