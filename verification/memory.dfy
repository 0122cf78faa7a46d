/** The blocks of nodes, and per-level memory accounting (lib/mm.c). A node is a struct stored by value, in the
    block of its parent or in memory of the owner of the root; a node pointer is a place in an array of
    structs. */
module Memory {
  import opened Words
  import opened Trees

  const MAX_LEVEL: nat := 32
  /** The bytes of struct mb_node, the unit of all allocations: two bitmaps and a pointer. */
  const NODE_SIZE: nat := 24

  /** Node units needed for x rule pointers of 8 bytes each. */
  function UpRule(x: nat): nat {
    if x == 0 then 0 else if x < 4 then 1 else 1 + UpRule(x - 3)
  }

  lemma {:induction false} UpRuleFormula(x: nat)
    ensures UpRule(x) == (x * 8 + NODE_SIZE - 1) / NODE_SIZE == (x * 8 + 23) / 24
  {
    if x >= 4 { UpRuleFormula(x - 3); }
  }

  lemma {:induction false} UpRuleMono(x: nat, y: nat)
    requires x <= y
    ensures UpRule(x) <= UpRule(y)
  {
    UpRuleFormula(x);
    UpRuleFormula(y);
  }

  // ----- blocks -----------------------------------------------------------------------

  /** struct mb_node; `block` stands for child_ptr. */
  datatype Struct = Struct(external: Word, internal: Word, block: Block?)

  const ZERO: Struct := Struct(0, 0, null)

  /** struct mb_node *. */
  datatype Ptr = Ptr(arr: array<Struct>, idx: nat)

  /** One allocation of `units` node units. child_ptr is `up` units above its base: the rule at
      offset -k below child_ptr is rules[k - 1], the child at offset k is kids[k]. */
  class Block {
    const up: nat
    const units: nat
    const level: nat
    const rules: array<Nhi>
    const kids: array<Struct>

    constructor (mbCnt: nat, nhCnt: nat, level: nat)
      ensures this.level == level
      ensures up == UpRule(nhCnt) && units == mbCnt + UpRule(nhCnt)
      ensures fresh(rules) && rules[..] == seq(nhCnt, _ => 0)
      ensures fresh(kids) && kids[..] == seq(mbCnt, _ => ZERO)
    {
      up := UpRule(nhCnt);
      units := mbCnt + UpRule(nhCnt);
      this.level := level;
      rules := new Nhi[nhCnt](_ => 0);
      kids := new Struct[mbCnt](_ => ZERO);
    }
  }

  ghost function BlockFoot(b: Block?): set<object> {
    if b == null then {} else {b, b.rules, b.kids}
  }

  // ----- the calls of the allocator ---------------------------------------------------

  /** No block is larger: 64 children and 63 rules. */
  const MAX_UNITS: nat := 85

  /** A call of the allocator behind the counters: a block is got, or given back with its own size and level. */
  datatype Call = Got(b: Block) | Gave(b: Block)

  /** The calls for a block; there is none for a block without a size. */
  ghost function Getting(b: Block?): seq<Call> {
    if b != null && b.units > 0 then [Got(b)] else []
  }

  ghost function Giving(b: Block?): seq<Call> {
    if b != null && b.units > 0 then [Gave(b)] else []
  }

  /** The blocks in use after the calls. */
  ghost function InUse(log: seq<Call>): set<Block> {
    if log == [] then {}
    else
      var x := log[|log| - 1];
      if x.Got? then InUse(log[..|log| - 1]) + {x.b} else InUse(log[..|log| - 1]) - {x.b}
  }

  /** What is got is new, of at most MAX_UNITS units, and what is given back is in use. */
  ghost predicate Legal(log: seq<Call>) {
    log != [] ==>
      var x := log[|log| - 1];
      && Legal(log[..|log| - 1])
      && if x.Got? then x.b !in InUse(log[..|log| - 1]) && 0 < x.b.units <= MAX_UNITS
         else x.b in InUse(log[..|log| - 1])
  }

  lemma {:induction false} LegalMore(log: seq<Call>, x: Call)
    ensures InUse(log + [x]) == if x.Got? then InUse(log) + {x.b} else InUse(log) - {x.b}
    ensures Legal(log + [x]) <==>
              && Legal(log)
              && if x.Got? then x.b !in InUse(log) && 0 < x.b.units <= MAX_UNITS else x.b in InUse(log)
  {
    assert (log + [x])[..|log|] == log;
  }

  // ----- the counters -----------------------------------------------------------------

  /** The value of a 32-bit counter. */
  function Wrap(x: int): nat {
    x % 0x1_0000_0000
  }

  function Total(s: seq<int>): int {
    if s == [] then 0 else s[0] + Total(s[1..])
  }

  lemma {:induction false} TotalUpdate(s: seq<int>, k: nat, x: int)
    requires k < |s|
    ensures Total(s[k := x]) == Total(s) + x - s[k]
  {
    if k > 0 {
      TotalUpdate(s[1..], k - 1, x);
      assert s[k := x][1..] == s[1..][k - 1 := x];
    } else {
      assert s[0 := x][1..] == s[1..];
    }
  }

  /** The ledger v is u with delta units more on one level. */
  ghost predicate Charged(u: seq<int>, v: seq<int>, level: nat, delta: int) {
    |v| == |u| && forall d | 0 <= d < |u| :: v[d] == u[d] + if d == level then delta else 0
  }

  lemma {:induction false} ChargedTwice(u: seq<int>, v: seq<int>, w: seq<int>, level: nat, a: int, b: int)
    requires Charged(u, v, level, a) && Charged(v, w, level, b)
    ensures Charged(u, w, level, a + b) == true
  {
  }

  /** The 32-bit counters of one allocator. The ghost ledger is exact; the counters show it
      modulo 2^32. The ghost log has the calls for blocks that have a size, and `used` all that belongs to
      the blocks that were not given back. */
  class Mm {
    var mem: nat
    var node: nat
    const lmem: array<nat>
    const lnode: array<nat>
    ghost var units: seq<int>
    ghost var used: set<object>
    ghost var log: seq<Call>

    ghost function Repr(): set<object> {
      {this, lmem, lnode}
    }

    ghost predicate Valid()
      reads this, lmem, lnode
    {
      && lmem != lnode
      && lmem.Length == lnode.Length == |units| == MAX_LEVEL
      && node == Wrap(Total(units))
      && mem == Wrap(NODE_SIZE * Total(units))
      && (forall d | 0 <= d < MAX_LEVEL :: lnode[d] == Wrap(units[d]))
      && (forall d | 0 <= d < MAX_LEVEL :: lmem[d] == Wrap(NODE_SIZE * units[d]))
      && Lawful() == true
    }

    /** The calls so far were legal, and the blocks in use are in `used`. */
    ghost predicate Lawful()
      reads this
    {
      && Legal(log)
      && (forall b: Block | b in used && b.units > 0 :: b in InUse(log))
      && forall b | b in InUse(log) :: b in used && b.units > 0
    }

    constructor ()
      ensures Valid() && fresh(Repr())
      ensures units == seq(MAX_LEVEL, _ => 0) && log == [] && used == {}
      ensures lnode.Length == lmem.Length == 32 && node == mem == 0
      ensures forall d | 0 <= d < 32 :: lnode[d] == lmem[d] == 0
    {
      log, used := [], {};
      mem, node := 0, 0;
      lmem := new nat[MAX_LEVEL](_ => 0);
      lnode := new nat[MAX_LEVEL](_ => 0);
      units := seq(MAX_LEVEL, _ => 0);
      new;
      TotalZero(units);
    }

    /** Books nodeNum units on `level`. A request for zero units may yield no block. */
    method AllocNode(nodeNum: nat, level: nat) returns (ok: bool)
      requires Valid() && level < MAX_LEVEL
      modifies Repr()
      ensures Valid()
      ensures Charged(old(units), units, level, nodeNum) && used == old(used) && log == old(log)
      ensures node == (old(node) + nodeNum) % 0x1_0000_0000 && mem == (old(mem) + 24 * nodeNum) % 0x1_0000_0000
      ensures forall d | 0 <= d < MAX_LEVEL ::
                lnode[d] == if d == level then (old(lnode[d]) + nodeNum) % 0x1_0000_0000 else old(lnode[d])
      ensures forall d | 0 <= d < MAX_LEVEL ::
                lmem[d] == if d == level then (old(lmem[d]) + 24 * nodeNum) % 0x1_0000_0000 else old(lmem[d])
      ensures nodeNum > 0 ==> ok
    {
      Book(nodeNum, level);
      ok := *;
      if nodeNum > 0 { ok := true; }
    }

    method DeallocNode(nodeNum: nat, level: nat)
      requires Valid() && level < MAX_LEVEL
      modifies Repr()
      ensures Valid()
      ensures Charged(old(units), units, level, -(nodeNum as int)) && used == old(used) && log == old(log)
      ensures node == (old(node) - nodeNum) % 0x1_0000_0000 && mem == (old(mem) - 24 * nodeNum) % 0x1_0000_0000
      ensures forall d | 0 <= d < MAX_LEVEL ::
                lnode[d] == if d == level then (old(lnode[d]) - nodeNum) % 0x1_0000_0000 else old(lnode[d])
      ensures forall d | 0 <= d < MAX_LEVEL ::
                lmem[d] == if d == level then (old(lmem[d]) - 24 * nodeNum) % 0x1_0000_0000 else old(lmem[d])
    {
      var n: int := nodeNum;
      Book(-n, level);
    }

    /** Adds delta units, of either sign, to the four counters. */
    method Book(delta: int, level: nat)
      requires Valid() && level < MAX_LEVEL
      modifies Repr()
      ensures Valid()
      ensures Charged(old(units), units, level, delta) && used == old(used) && log == old(log)
      ensures node == Wrap(old(node) + delta) && mem == Wrap(old(mem) + delta * NODE_SIZE)
      ensures lnode[..] == old(lnode[..])[level := Wrap(old(lnode[level]) + delta)]
      ensures lmem[..] == old(lmem[..])[level := Wrap(old(lmem[level]) + delta * NODE_SIZE)]
    {
      hide Wrap, Total;
      TotalUpdate(units, level, units[level] + delta);
      WrapAdd(Total(units), delta);
      WrapAdd(NODE_SIZE * Total(units), NODE_SIZE * delta);
      WrapAdd(units[level], delta);
      WrapAdd(NODE_SIZE * units[level], NODE_SIZE * delta);
      assert delta * NODE_SIZE == NODE_SIZE * delta;
      units := units[level := units[level] + delta];
      mem := Wrap(mem + delta * NODE_SIZE);
      node := Wrap(node + delta);
      lmem[level] := Wrap(lmem[level] + delta * NODE_SIZE);
      lnode[level] := Wrap(lnode[level] + delta);
    }

    /** The counters are 32-bit numbers that differ from the exact ledger by a multiple of 2^32, and show it
        exactly as long as it is below that. */
    lemma Shown()
      requires Valid()
      ensures lmem.Length == lnode.Length == |units| == MAX_LEVEL
      ensures node < 0x1_0000_0000 && (Total(units) - node) % 0x1_0000_0000 == 0
      ensures mem < 0x1_0000_0000 && (24 * Total(units) - mem) % 0x1_0000_0000 == 0
      ensures forall d | 0 <= d < MAX_LEVEL ::
                && lnode[d] < 0x1_0000_0000 && (units[d] - lnode[d]) % 0x1_0000_0000 == 0
                && (0 <= units[d] < 0x1_0000_0000 ==> lnode[d] == units[d])
      ensures forall d | 0 <= d < MAX_LEVEL ::
                && lmem[d] < 0x1_0000_0000 && (24 * units[d] - lmem[d]) % 0x1_0000_0000 == 0
                && (0 <= 24 * units[d] < 0x1_0000_0000 ==> lmem[d] == 24 * units[d])
    {
      hide Total, Lawful, Wrap;
      WrapShown(Total(units));
      WrapShown(24 * Total(units));
      forall d | 0 <= d < MAX_LEVEL
        ensures lnode[d] < 0x1_0000_0000 && (units[d] - lnode[d]) % 0x1_0000_0000 == 0
        ensures 0 <= units[d] < 0x1_0000_0000 ==> lnode[d] == units[d]
        ensures lmem[d] < 0x1_0000_0000 && (24 * units[d] - lmem[d]) % 0x1_0000_0000 == 0
        ensures 0 <= 24 * units[d] < 0x1_0000_0000 ==> lmem[d] == 24 * units[d]
      {
        WrapShown(units[d]);
        WrapShown(24 * units[d]);
      }
    }

    /** A new block, which the allocator has returned, is in use. */
    ghost method Lend(b: Block)
      requires Valid() && b !in used && b.units <= MAX_UNITS
      modifies this`used, this`log
      ensures Valid() && used == old(used) + BlockFoot(b)
      ensures log == old(log) + if b.units > 0 then [Got(b)] else []
    {
      LegalMore(log, Got(b));
      used := used + BlockFoot(b);
      if b.units > 0 { log := log + [Got(b)]; }
    }

    /** A block is given back. */
    ghost method TakeBack(b: Block)
      requires Valid() && BlockFoot(b) <= used
      modifies this`used, this`log
      ensures Valid() && used == old(used) - BlockFoot(b)
      ensures log == old(log) + if b.units > 0 then [Gave(b)] else []
    {
      LegalMore(log, Gave(b));
      forall c | c in InUse(log) && c != b ensures c !in BlockFoot(b) {
      }
      used := used - BlockFoot(b);
      if b.units > 0 { log := log + [Gave(b)]; }
    }
  }

  lemma {:induction false} WrapShown(x: int)
    ensures Wrap(x) < 0x1_0000_0000 && (x - Wrap(x)) % 0x1_0000_0000 == 0
    ensures 0 <= x < 0x1_0000_0000 ==> Wrap(x) == x
  {
  }

  lemma {:induction false} WrapAdd(x: int, y: int)
    ensures Wrap(Wrap(x) + y) == Wrap(x + y)
  {
  }

  lemma {:induction false} TotalZero(s: seq<int>)
    requires forall k | 0 <= k < |s| :: s[k] == 0
    ensures Total(s) == 0
  {
    if s != [] { TotalZero(s[1..]); }
  }
}
