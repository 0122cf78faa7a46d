/** struct tbm_trie (tbm/tbmv4.h) and its operations. */
module Tbm {
  import opened Words
  import opened Addresses
  import opened Trees
  import opened LongestMatch
  import opened NodeSearch
  import opened Memory
  import opened Shapes
  import opened Usage
  import opened Walk
  import opened Search
  import opened SearchV4
  import opened SearchBatch
  import opened Overlap
  import opened FrontTable
  import opened TableRuns
  import opened TbmTables
  import opened TbmBatch

  lemma {:induction false} SomeSlots()
    ensures SLOTS > 0
  {
  }

  lemma {:induction false} StepLaw(t: Table, op: Op)
    requires Good(t) && Allowed(Map(t.aux), op)
    ensures Packed(t.aux) && Packed(TableStep(t, op).aux)
    ensures Map(TableStep(t, op).aux) == MapStep(Map(t.aux), op)
  {
    hide *;
    GoodAux(t);
    StepMap(t, op);
    TableStepGood(t, op);
    GoodAux(TableStep(t, op));
  }

  lemma {:induction false} BestIs(t: Table)
    requires Packed(t.aux)
    ensures forall ip: U32 ::
              LENGTH + 1 <= |Addr(ip)| + 1 && Best(t, ip) == NhiOf(Longest(Map(t.aux), Addr(ip), LENGTH + 1))
  {
  }

  class TbmTrie {
    const flags: array<nat>
    const e: array<Struct>
    const m: Mm
    const upAux: array<Struct>
    const upM: Mm
    ghost var shapes: seq<Shape>
    ghost var up: Shape
    ghost var table: Table

    ghost function Repr(): set<object>
      reads this
    {
      {this} + Lower(m, e, flags, shapes) + Upper(upM, upAux, up)
    }

    ghost predicate Valid()
      reads this, Repr()
    {
      && TableIn(m, e, flags, upM, upAux, shapes, up, table)
      && this !in Lower(m, e, flags, shapes) + Upper(upM, upAux, up)
    }

    constructor ()
      ensures Valid() && fresh(Repr())
      ensures table == Start()
    {
      hide *;
      SomeSlots();
      var init := new nat[SLOTS](_ => 0);
      var entries := new Struct[SLOTS](_ => ZERO);
      var root := new Struct[1](_ => ZERO);
      var mm := new Mm();
      ReprAlloc(mm);
      var upMm := new Mm();
      ReprAlloc(upMm);
      flags, e, m, upAux, upM := init, entries, mm, root, upMm;
      new;
      assert e[..] == seq(SLOTS, _ => ZERO) && flags[..] == seq(SLOTS, _ => 0) && upAux[..] == [ZERO];
      var ss, us := StartIn(m, e, flags, upM, upAux);
      Assign(ss, us, Start());
    }

    /** tbm_insert_prefix. */
    method Insert(ip: U32, cidr: nat, nhi: Nhi) returns (r: int)
      requires Valid() && cidr <= LENGTH && HostZero(ip, cidr)
      modifies Repr()
      ensures Valid() && fresh(Repr() - old(Repr()))
      ensures Good(old(table)) && Allowed(Map(old(table).aux), Op.Insert(ip, cidr, nhi))
      ensures table == TableStep(old(table), Op.Insert(ip, cidr, nhi))
      ensures Packed(old(table).aux) && Packed(table.aux)
      ensures Map(table.aux) == MapStep(Map(old(table).aux), Op.Insert(ip, cidr, nhi))
      ensures r == if cidr == 0 then -1 else 0
    {
      hide *;
      Parts();
      ghost var ss, us;
      r, ss, us := InsertTable(m, e, flags, upM, upAux, ip, cidr, nhi, shapes, up, table);
      StepLaw(table, Op.Insert(ip, cidr, nhi));
      Assign(ss, us, TableStep(table, Op.Insert(ip, cidr, nhi)));
    }

    /** tbm_delete_prefix; `calls` are the calls of destroy_nhi. */
    method Delete(ip: U32, cidr: nat, notify: bool) returns (r: int, calls: seq<Nhi>)
      requires Valid() && Good(table) && Packed(table.aux) && Allowed(Map(table.aux), Op.Delete(ip, cidr))
      modifies Repr()
      ensures Valid() && fresh(Repr() - old(Repr()))
      ensures table == TableStep(old(table), Op.Delete(ip, cidr))
      ensures Packed(table.aux) && Map(table.aux) == MapStep(Map(old(table).aux), Op.Delete(ip, cidr))
      ensures r == if cidr == 0 then -1 else 0
      ensures calls == CallsOf(old(table), ip, cidr, notify)
    {
      hide *;
      Parts();
      ghost var ss, us;
      r, calls, ss, us := DeleteTable(m, e, flags, upM, upAux, ip, cidr, notify, shapes, up, table);
      StepLaw(table, Op.Delete(ip, cidr));
      Assign(ss, us, TableStep(table, Op.Delete(ip, cidr)));
    }

    /** tbm_search: for every address the next hop of the longest prefix, or NULL. */
    method Search(fct: seq<Word>, mark: array<LazyTravel>, ip: U32) returns (r: Nhi)
      requires Valid() && Ready(fct) && mark.Length == LEVEL && mark !in Repr()
      modifies mark
      ensures Valid() && Packed(table.aux)
      ensures r == NhiOf(Longest(Map(table.aux), Addr(ip), LENGTH + 1))
    {
      hide *;
      Parts();
      r := SearchTable(fct, mark, m, e, flags, upM, upAux, ip, shapes, up, table);
    }

    /** tbm_search_batch: the same for up to BATCH addresses, each in its own lane. */
    method SearchBatch(fct: seq<Word>, mark: array2<LazyTravel>, ip: array<U32>, ret: array<Nhi>, cnt: nat)
      requires Valid() && Ready(fct) && cnt <= BATCH && ip.Length == ret.Length == BATCH
      requires mark.Length0 == BATCH && mark.Length1 == LEVEL && mark !in Repr() && ret !in Repr()
      modifies mark, ret
      ensures Valid() && Packed(table.aux)
      ensures forall i | 0 <= i < cnt :: ret[i] == NhiOf(Longest(Map(table.aux), Addr(ip[i]), LENGTH + 1))
      ensures ret[cnt..] == old(ret[cnt..])
    {
      hide *;
      Parts();
      TableParts(m, e, flags, upM, upAux, shapes, up, table);
      SearchBatchTable(fct, mark, m, e, flags, upM, upAux, ip, ret, cnt, shapes, up, table);
      BestIs(table);
    }

    /** tbm_prefix_exist. */
    method Exists(ip: U32, cidr: nat) returns (r: int)
      requires Valid() && cidr <= LENGTH && HostZero(ip, cidr)
      ensures Packed(table.aux) && r == if Key(ip, cidr) in Map(table.aux) then 1 else 0
    {
      hide *;
      Parts();
      TableParts(m, e, flags, upM, upAux, shapes, up, table);
      MapHas(table.aux, Key(ip, cidr));
      r := PrefixExist(Ptr(upAux, 0), ip, cidr, up);
    }

    /** The counters of both allocators show the units of the nodes in the tries, level by level. */
    lemma Counters()
      requires Valid()
      ensures m.Valid() && upM.Valid()
      ensures forall d: nat | d < MAX_LEVEL ::
                var n := KidsUnits(TriesOf(table.slots), d);
                && m.lnode[d] < 0x1_0000_0000 && (n - m.lnode[d]) % 0x1_0000_0000 == 0
                && m.lmem[d] < 0x1_0000_0000 && (24 * n - m.lmem[d]) % 0x1_0000_0000 == 0
                && (24 * n < 0x1_0000_0000 ==> m.lnode[d] == n && m.lmem[d] == 24 * n)
      ensures forall d: nat | d < MAX_LEVEL ::
                var n := Units(table.aux, d);
                && upM.lnode[d] < 0x1_0000_0000 && (n - upM.lnode[d]) % 0x1_0000_0000 == 0
                && upM.lmem[d] < 0x1_0000_0000 && (24 * n - upM.lmem[d]) % 0x1_0000_0000 == 0
                && (24 * n < 0x1_0000_0000 ==> upM.lnode[d] == n && upM.lmem[d] == 24 * n)
    {
      hide *;
      Parts();
      Conservation(m, e, flags, upM, upAux, shapes, up, table);
    }

    /** When the last prefix is gone every counter is at 0. */
    lemma NothingLeft()
      requires Valid() && Packed(table.aux) && Map(table.aux) == imap[]
      ensures m.lnode.Length == m.lmem.Length == upM.lnode.Length == upM.lmem.Length == MAX_LEVEL
      ensures forall d: nat | d < MAX_LEVEL :: m.lnode[d] == m.lmem[d] == upM.lnode[d] == upM.lmem[d] == 0
      ensures m.node == m.mem == upM.node == upM.mem == 0
    {
      hide *;
      Parts();
      AllFreed(m, e, flags, upM, upAux, shapes, up, table);
    }

    /** In every reachable state the calls of both allocators so far were legal, and the blocks of the tries
        are in use. */
    lemma RunLegal()
      requires Valid()
      ensures Legal(m.log) && Legal(upM.log)
      ensures forall b: Block | b in KidsFoot(shapes) && b.units > 0 :: b in InUse(m.log)
      ensures forall b: Block | b in Foot(up) && b.units > 0 :: b in InUse(upM.log)
    {
      hide *;
      Parts();
      LegalCalls(m, e, flags, upM, upAux, shapes, up, table);
    }

    lemma Parts()
      requires Valid()
      ensures TableIn(m, e, flags, upM, upAux, shapes, up, table)
      ensures this !in Lower(m, e, flags, shapes) + Upper(upM, upAux, up)
      ensures Repr() == {this} + (Lower(m, e, flags, shapes) + Upper(upM, upAux, up))
      ensures allocated(Repr())
    {
      KidsAlloc(shapes);
      FootAlloc(up);
    }

    ghost method Assign(ss: seq<Shape>, us: Shape, t: Table)
      requires TableIn(m, e, flags, upM, upAux, ss, us, t)
      requires this !in Lower(m, e, flags, ss) + Upper(upM, upAux, us)
      modifies this
      ensures shapes == ss && up == us && table == t
      ensures Valid() && Repr() == {this} + (Lower(m, e, flags, ss) + Upper(upM, upAux, us))
    {
      hide TableIn, Lower, Upper;
      shapes, up, table := ss, us, t;
    }
  }
}
