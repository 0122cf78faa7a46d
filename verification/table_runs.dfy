/** The front table answers by longest prefix match after any run of inserts and deletes. */
module TableRuns {
  import opened Addresses
  import opened Trees
  import opened TreeLaws
  import opened LongestMatch
  import opened Search
  import opened FrontTable

  // ----- search -----------------------------------------------------------------------

  /** tbm_search on the slots. */
  ghost function Lookup(slots: seq<Slot>, ip: U32): Nhi
    requires AllPacked(slots)
  {
    var sl := slots[Index(ip)];
    if sl.child then NhiOf(Answer(sl.trie, Addr(Shl32(ip, INITIAL_BITS)), REST)) else sl.ptr
  }

  /** Below a slot with a trie the match in the trie is the match in the whole map. */
  lemma {:induction false} MatchBelow(aux: Tree, a: Bits, b: Bits, sl: Slot, n: nat)
    requires Packed(aux) && |a| == LENGTH && n <= REST <= |b| && b[..REST] == a[INITIAL_BITS..]
    requires SlotOk(aux, a[..INITIAL_BITS], sl)
    ensures sl.child ==>
              NhiOpt(Longest(Map(sl.trie), b, n + 1)) == NhiOpt(Longest(Map(aux), a, INITIAL_BITS + n + 1))
    ensures !sl.child ==> Longest(Map(aux), a, INITIAL_BITS + n + 1) == Cover(aux, a[..INITIAL_BITS])
  {
    var p, k := a[..INITIAL_BITS], b[..n];
    if n == 0 {
      LongestPrefix(Map(aux), a, p, INITIAL_BITS + 1);
      assert k == [];
      if sl.child {
        assert Get(sl.trie, k) == Wanted(aux, p, k);
        assert Longest(Map(sl.trie), b, 0) == None;
      }
    } else {
      MatchBelow(aux, a, b, sl, n - 1);
      assert a[..INITIAL_BITS + n] == p + k;
      assert Wanted(aux, p, k) == Get(aux, p + k);
      if sl.child { assert Get(sl.trie, k) == Wanted(aux, p, k); }
    }
  }

  /** A table in agreement with the auxiliary trie answers with its longest match. */
  lemma {:induction false} LookupIsLongest(aux: Tree, slots: seq<Slot>, ip: U32)
    requires Consistent(aux, slots)
    ensures AllPacked(slots) && Lookup(slots, ip) == NhiOf(Longest(Map(aux), Addr(ip), LENGTH + 1))
  {
    ConsistentPacked(aux, slots);
    var a, b, sl := Addr(ip), Addr(Shl32(ip, INITIAL_BITS)), slots[Index(ip)];
    ShlAddr(ip, INITIAL_BITS);
    assert SlotOk(aux, ToBits(Index(ip), INITIAL_BITS), sl);
    assert b[..REST] == a[INITIAL_BITS..];
    MatchBelow(aux, a, b, sl, REST);
  }

  // ----- runs -------------------------------------------------------------------------

  datatype Op = Insert(ip: U32, cidr: nat, nhi: Nhi) | Delete(ip: U32, cidr: nat)

  datatype Table = Table(aux: Tree, slots: seq<Slot>)

  /** What the caller has to respect: clear host bits, and only stored prefixes are deleted. */
  ghost predicate Allowed(m: imap<Bits, Nhi>, op: Op) {
    op.cidr <= LENGTH && HostZero(op.ip, op.cidr) && (op.Delete? && op.cidr > 0 ==> Key(op.ip, op.cidr) in m)
  }

  /** One operation on the plain map: a default route is refused. */
  ghost function MapStep(m: imap<Bits, Nhi>, op: Op): imap<Bits, Nhi>
    requires op.cidr <= LENGTH
  {
    if op.cidr == 0 then m
    else if op.Insert? then m[Key(op.ip, op.cidr) := op.nhi]
    else m - {Key(op.ip, op.cidr)}
  }

  ghost predicate Good(t: Table) {
    Consistent(t.aux, t.slots)
  }

  /** One operation on the table. */
  ghost function TableStep(t: Table, op: Op): (r: Table)
    requires Good(t) && Allowed(Map(t.aux), op)
    ensures Good(r)
  {
    if op.cidr == 0 then t
    else if op.Insert? then
      TableInsertKeeps(t.aux, t.slots, op.ip, op.cidr, op.nhi);
      Table(InsertT(t.aux, Key(op.ip, op.cidr), op.nhi), TableInsert(t.slots, op.ip, op.cidr, op.nhi))
    else
      TableDeleteKeeps(t.aux, t.slots, op.ip, op.cidr);
      Table(DeleteT(t.aux, Key(op.ip, op.cidr)), TableDelete(t.aux, t.slots, op.ip, op.cidr))
  }

  lemma {:induction false} MapHas(t: Tree, k: Bits)
    requires Packed(t)
    ensures k in Map(t) <==> Get(t, k).Some?
  {
  }

  lemma {:induction false} GoodAux(t: Table)
    requires Good(t)
    ensures Packed(t.aux)
  {
  }

  lemma {:induction false} StepMap(t: Table, op: Op)
    requires Good(t) && Allowed(Map(t.aux), op)
    ensures Map(TableStep(t, op).aux) == MapStep(Map(t.aux), op)
  {
    hide Get, InsertT, DeleteT, TableInsert, TableDelete, Packs, Map, Good, Consistent;
    GoodAux(t);
    if op.cidr > 0 {
      var k := Key(op.ip, op.cidr);
      MapHas(t.aux, k);
      if op.Insert? { InsertIsUpdate(t.aux, k, op.nhi); } else { DeleteIsRemoval(t.aux, k); }
    }
  }

  ghost function MapRun(ops: seq<Op>): imap<Bits, Nhi>
    requires forall i | 0 <= i < |ops| :: ops[i].cidr <= LENGTH
  {
    if ops == [] then imap[] else MapStep(MapRun(ops[..|ops| - 1]), ops[|ops| - 1])
  }

  /** Every operation of the run is allowed where it comes. */
  ghost predicate Run(ops: seq<Op>) {
    ops != [] ==>
      && Run(ops[..|ops| - 1])
      && (forall i | 0 <= i < |ops| :: ops[i].cidr <= LENGTH)
      && Allowed(MapRun(ops[..|ops| - 1]), ops[|ops| - 1])
  }

  /** tbm_init_trie. */
  ghost function Start(): Table {
    Table(EMPTY, seq(SLOTS, _ => FREE))
  }

  lemma {:induction false} NothingLonger(a: Bits, n: nat)
    requires n <= |a| + 1
    ensures Longest(imap[], a, n) == None
  {
    if n > 0 { NothingLonger(a, n - 1); }
  }

  lemma {:induction false} EmptyMap()
    ensures Packed(EMPTY) && Map(EMPTY) == imap[]
  {
    EmptyTree();
  }

  lemma {:induction false} FreeOk(p: Bits)
    requires |p| == INITIAL_BITS
    ensures Packed(EMPTY) && SlotOk(EMPTY, p, FREE)
  {
    EmptyMap();
    EmptySlot();
    NothingLonger(p, INITIAL_BITS + 1);
    forall k: Bits | k != [] ensures Wanted(EMPTY, p, k) == None {
      EmptyTree();
    }
  }

  lemma {:induction false} StartGood()
    ensures Good(Start())
  {
    hide SlotOk, Get, Packs, Fits, Canonical, EMPTY;
    EmptyTree();
    EmptyCanonical();
    forall i: nat | i < SLOTS ensures SlotOk(EMPTY, ToBits(i, INITIAL_BITS), FREE) {
      FreeOk(ToBits(i, INITIAL_BITS));
    }
  }

  lemma {:induction false} EmptyCanonical()
    ensures Canonical(EMPTY)
  {
  }

  /** The table after a run. */
  ghost function After(ops: seq<Op>): (t: Table)
    requires Run(ops)
    ensures forall i | 0 <= i < |ops| :: ops[i].cidr <= LENGTH
    ensures Good(t) && Map(t.aux) == MapRun(ops)
  {
    if ops == [] then
      StartGood();
      EmptyMap();
      Start()
    else
      var t := After(ops[..|ops| - 1]);
      StepMap(t, ops[|ops| - 1]);
      TableStep(t, ops[|ops| - 1])
  }

  /** After every run of valid inserts and deletes, and for every address, the table answers with the
      next hop of the longest prefix in the plain map, or with NULL. */
  lemma {:induction false} RunLookup(ops: seq<Op>, ip: U32)
    requires Run(ops)
    ensures Good(After(ops)) && AllPacked(After(ops).slots)
    ensures Lookup(After(ops).slots, ip) == NhiOf(Longest(MapRun(ops), Addr(ip), LENGTH + 1))
  {
    LookupIsLongest(After(ops).aux, After(ops).slots, ip);
  }

  /** Two slots that agree with the same auxiliary trie have the same length, and the same contents if
      they are of the same kind. */
  lemma {:induction false} SlotDetermined(aux: Tree, p: Bits, sl: Slot, sm: Slot)
    requires Packed(aux) && |p| == INITIAL_BITS && SlotOk(aux, p, sl) && SlotOk(aux, p, sm)
    ensures sl.hi == sm.hi
    ensures sl.child && sm.child ==> sl.trie == sm.trie
    ensures !sl.child && !sm.child ==> sl.ptr == sm.ptr && sl.trie == sm.trie
  {
    if sl.child && sm.child {
      forall k: Bits ensures Get(sl.trie, k) == Get(sm.trie, k) {
        assert Get(sl.trie, k) == Wanted(aux, p, k) && Get(sm.trie, k) == Wanted(aux, p, k);
      }
      CanonicalUnique(sl.trie, sm.trie);
    }
  }

  /** Runs that leave the same map leave the same auxiliary trie and the same length in every slot; slots of
      the same kind hold the same. A slot may still differ in kind: once it has a trie it keeps it until the
      trie is empty. */
  lemma {:induction false} RunCanonical(ops: seq<Op>, others: seq<Op>, i: nat)
    requires Run(ops) && Run(others) && MapRun(ops) == MapRun(others) && i < SLOTS
    ensures After(ops).aux == After(others).aux && |After(ops).slots| == |After(others).slots| == SLOTS
    ensures var sl, sm := After(ops).slots[i], After(others).slots[i];
            && sl.hi == sm.hi
            && (sl.child && sm.child ==> sl.trie == sm.trie)
            && (!sl.child && !sm.child ==> sl.ptr == sm.ptr && sl.trie == sm.trie)
  {
    hide SlotOk, Packs, Fits, Canonical;
    var t, u, p := After(ops).aux, After(others).aux, ToBits(i, INITIAL_BITS);
    forall k: Bits ensures Get(t, k) == Get(u, k) {
      assert k in Map(t) <==> k in Map(u);
      assert k in Map(t) ==> Map(t)[k] == Map(u)[k];
    }
    CanonicalUnique(t, u);
    assert SlotOk(t, p, After(ops).slots[i]) && SlotOk(u, p, After(others).slots[i]);
    SlotDetermined(t, p, After(ops).slots[i], After(others).slots[i]);
  }

  // ----- pointer or trie, over a run --------------------------------------------------

  /** A prefix longer than 13 bits is inserted below the slot of p. */
  ghost predicate LongAt(op: Op, p: Bits)
    requires op.cidr <= LENGTH
  {
    op.Insert? && op.cidr > INITIAL_BITS && Key(op.ip, op.cidr)[..INITIAL_BITS] == p
  }

  /** Such an insert was made, and ever since then some stored prefix has covered the slot or lain below it. */
  ghost predicate Marked(ops: seq<Op>, p: Bits)
    requires |p| == INITIAL_BITS && forall i | 0 <= i < |ops| :: ops[i].cidr <= LENGTH
  {
    exists j :: 0 <= j < |ops| && LongAt(ops[j], p) && StaysTouched(ops, j, p)
  }

  ghost predicate StaysTouched(ops: seq<Op>, j: nat, p: Bits)
    requires |p| == INITIAL_BITS && forall i | 0 <= i < |ops| :: ops[i].cidr <= LENGTH
  {
    forall t | j < t <= |ops| :: Touched(MapRun(ops[..t]), p)
  }

  lemma {:induction false} StaysStep(ops: seq<Op>, j: nat, p: Bits)
    requires |p| == INITIAL_BITS && (forall i | 0 <= i < |ops| :: ops[i].cidr <= LENGTH) && j < |ops|
    ensures StaysTouched(ops, j, p) <==> StaysTouched(ops[..|ops| - 1], j, p) && Touched(MapRun(ops), p)
  {
    hide MapRun, Touched;
    var pre := ops[..|ops| - 1];
    assert ops[..|ops|] == ops;
    forall t | j < t <= |pre| ensures pre[..t] == ops[..t] {
    }
    if StaysTouched(pre, j, p) && Touched(MapRun(ops), p) {
      forall t | j < t <= |ops| ensures Touched(MapRun(ops[..t]), p) {
        if t < |ops| { assert pre[..t] == ops[..t]; }
      }
    }
    if StaysTouched(ops, j, p) {
      forall t | j < t <= |pre| ensures Touched(MapRun(pre[..t]), p) {
        assert pre[..t] == ops[..t];
      }
    }
  }

  lemma {:induction false} MarkedStep(ops: seq<Op>, p: Bits)
    requires |p| == INITIAL_BITS && (forall i | 0 <= i < |ops| :: ops[i].cidr <= LENGTH) && ops != []
    ensures Marked(ops, p) <==>
              Touched(MapRun(ops), p) && (LongAt(ops[|ops| - 1], p) || Marked(ops[..|ops| - 1], p))
  {
    hide MapRun, Touched, LongAt;
    var pre, m := ops[..|ops| - 1], |ops| - 1;
    forall j: nat | j < |ops| ensures StaysTouched(ops, j, p) <==> StaysTouched(pre, j, p) && Touched(MapRun(ops), p) {
      StaysStep(ops, j, p);
    }
    if Touched(MapRun(ops), p) && LongAt(ops[m], p) { assert StaysTouched(pre, m, p); }
    if Touched(MapRun(ops), p) && Marked(pre, p) {
      var j :| 0 <= j < |pre| && LongAt(pre[j], p) && StaysTouched(pre, j, p);
      assert LongAt(ops[j], p) && StaysTouched(ops, j, p);
    }
    if Marked(ops, p) {
      var j :| 0 <= j < |ops| && LongAt(ops[j], p) && StaysTouched(ops, j, p);
      if j < m { assert LongAt(pre[j], p) && StaysTouched(pre, j, p); }
    }
  }

  /** A slot is touched after an insert if it was before, and if the new prefix touches it. */
  lemma {:induction false} TouchedInsert(m: imap<Bits, Nhi>, k: Bits, v: Nhi, p: Bits)
    requires |p| == INITIAL_BITS && (Touched(m, p) || Touches(k, p))
    ensures Touched(m[k := v], p)
  {
    if Touches(k, p) {
      assert k in m[k := v];
    } else {
      var j: Bits :| j in m && Touches(j, p);
      assert j in m[k := v];
    }
  }

  /** One operation on the child mark of a slot. */
  lemma {:induction false} StepMark(t: Table, op: Op, i: nat)
    requires Good(t) && Allowed(Map(t.aux), op) && i < SLOTS
    ensures |t.slots| == |TableStep(t, op).slots| == SLOTS
    ensures TableStep(t, op).slots[i].child <==>
              && Touched(Map(TableStep(t, op).aux), ToBits(i, INITIAL_BITS))
              && (LongAt(op, ToBits(i, INITIAL_BITS)) || t.slots[i].child)
  {
    hide SlotOk, Packs, Fits, Canonical, Touched, Touches, TableInsert, TableDelete, InsertT, DeleteT;
    var p := ToBits(i, INITIAL_BITS);
    assert SlotOk(t.aux, p, t.slots[i]);
    SlotTouched(t.aux, p, t.slots[i]);
    if op.cidr > 0 && op.Insert? {
      var k := Key(op.ip, op.cidr);
      MarkInsert(t.aux, t.slots, op.ip, op.cidr, op.nhi, i);
      InsertIsUpdate(t.aux, k, op.nhi);
      if LongAt(op, p) { LongTouches(k, p); }
      if LongAt(op, p) || t.slots[i].child { TouchedInsert(Map(t.aux), k, op.nhi, p); }
    } else if op.cidr > 0 {
      MapHas(t.aux, Key(op.ip, op.cidr));
      MarkDelete(t.aux, t.slots, op.ip, op.cidr, i);
    }
  }

  lemma {:induction false} LongTouches(k: Bits, p: Bits)
    requires |p| == INITIAL_BITS < |k| && k[..INITIAL_BITS] == p
    ensures Touches(k, p)
  {
  }

  /** After every run a slot holds a trie exactly if it is marked: set by a long prefix below it, and cleared
      when no stored prefix touches it any more. */
  lemma {:induction false} RunMarks(ops: seq<Op>, i: nat)
    requires Run(ops) && i < SLOTS
    ensures |After(ops).slots| == SLOTS
    ensures After(ops).slots[i].child <==> Marked(ops, ToBits(i, INITIAL_BITS))
    ensures After(ops).slots[i].child ==> !Empty(After(ops).slots[i].trie)
  {
    hide SlotOk, Packs, Fits, Canonical, Touched, LongAt, TableStep, MapStep;
    var p := ToBits(i, INITIAL_BITS);
    if ops != [] {
      var pre, op := ops[..|ops| - 1], ops[|ops| - 1];
      RunMarks(pre, i);
      StepMark(After(pre), op, i);
      StepMap(After(pre), op);
      MarkedStep(ops, p);
    }
    assert SlotOk(After(ops).aux, p, After(ops).slots[i]);
    SlotTouched(After(ops).aux, p, After(ops).slots[i]);
  }

  /** Runs with the same map and the same marks end with the same table. */
  lemma {:induction false} RunDetermined(ops: seq<Op>, others: seq<Op>)
    requires Run(ops) && Run(others) && MapRun(ops) == MapRun(others)
    requires forall p: Bits | |p| == INITIAL_BITS :: Marked(ops, p) <==> Marked(others, p)
    ensures After(ops) == After(others)
  {
    hide SlotOk, Packs, Fits, Canonical, Marked;
    var t, u := After(ops), After(others);
    RunMarks(ops, 0);
    RunMarks(others, 0);
    forall i | 0 <= i < SLOTS ensures t.slots[i] == u.slots[i] {
      RunCanonical(ops, others, i);
      RunMarks(ops, i);
      RunMarks(others, i);
      assert SlotOk(t.aux, ToBits(i, INITIAL_BITS), t.slots[i]) && SlotOk(u.aux, ToBits(i, INITIAL_BITS), u.slots[i]);
      SlotKind(t.aux, ToBits(i, INITIAL_BITS), t.slots[i]);
      SlotKind(u.aux, ToBits(i, INITIAL_BITS), u.slots[i]);
    }
    RunCanonical(ops, others, 0);
  }

  lemma {:induction false} SlotKind(aux: Tree, p: Bits, sl: Slot)
    requires Packed(aux) && |p| == INITIAL_BITS && SlotOk(aux, p, sl)
    ensures sl.child ==> sl.ptr == NULL
  {
  }
}
