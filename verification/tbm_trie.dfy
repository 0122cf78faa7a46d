/** tbm_insert_prefix, tbm_delete_prefix and tbm_search on the whole table (tbm/tbmv4.c). */
module TbmTables {
  import opened Words
  import opened Addresses
  import opened Trees
  import opened TreeLaws
  import opened LongestMatch
  import opened NodeSearch
  import opened Memory
  import opened Shapes
  import opened MbNode
  import opened Usage
  import opened Walk
  import opened BitmapV4
  import opened Search
  import opened SearchV4
  import opened Overlap
  import opened FrontTable
  import opened TableRuns
  import opened Slots
  import opened Flags
  import opened TbmV4

  /** What the slots own, and what the auxiliary trie owns. */
  ghost function Lower(m: Mm, e: array<Struct>, flags: array<nat>, shapes: seq<Shape>): set<object> {
    m.Repr() + {e, flags} + KidsFoot(shapes)
  }

  ghost function Upper(upM: Mm, up: array<Struct>, us: Shape): set<object> {
    upM.Repr() + {up} + Foot(us)
  }

  /** Memory holds the table t. */
  ghost predicate TableIn(m: Mm, e: array<Struct>, flags: array<nat>, upM: Mm, up: array<Struct>,
                          shapes: seq<Shape>, us: Shape, t: Table)
    reads Lower(m, e, flags, shapes), Upper(upM, up, us)
  {
    && Good(t) && t.aux == Data(us)
    && SlotsIn(m, e, flags, shapes, t.slots) && flags !in m.Repr() + KidsFoot(shapes)
    && Owned(upM, Ptr(up, 0), us, 0) && Sums(upM.units, [t.aux])
    && Lower(m, e, flags, shapes) !! Upper(upM, up, us)
  }

  // ----- insert -----------------------------------------------------------------------

  lemma {:induction false} InsertFinds(t: Table, ip: U32, cidr: nat, nhi: Nhi)
    requires Good(t) && 0 < cidr <= LENGTH && HostZero(ip, cidr)
    ensures AllPacked(t.slots) && |t.slots| == SLOTS && INITIAL_BITS == 13 && LENGTH == 32
    ensures Packed(t.slots[Index(ip)].trie)
    ensures cidr <= INITIAL_BITS ==>
              && Index(ip) + Pow2(INITIAL_BITS - cidr) <= SLOTS
              && TableInsert(t.slots, ip, cidr, nhi)
                 == Pushed(t.slots, Index(ip), Pow2(INITIAL_BITS - cidr), cidr, nhi)
    ensures cidr > INITIAL_BITS ==>
              && HostZero(Shl32(ip, INITIAL_BITS), cidr - INITIAL_BITS)
              && TableInsert(t.slots, ip, cidr, nhi)
                 == t.slots[Index(ip) := AddBelow(t.slots[Index(ip)], Key(Shl32(ip, INITIAL_BITS),
                       cidr - INITIAL_BITS), nhi)]
    ensures !t.slots[Index(ip)].child ==>
              t.slots[Index(ip)].trie == EMPTY && (t.slots[Index(ip)].hi == 0 ==> t.slots[Index(ip)].ptr == NULL)
  {
    ConsistentPacked(t.aux, t.slots);
    var p := ToBits(Index(ip), INITIAL_BITS);
    assert SlotOk(t.aux, p, t.slots[Index(ip)]);
    CoverLength(t.aux, p);
    if cidr <= INITIAL_BITS {
      CoversIff(ip, cidr, Index(ip));
    } else {
      LowKeyIs(ip, cidr);
    }
  }

  /** The part of tbm_insert_prefix that changes the slots. */
  method InsertSlots(m: Mm, e: array<Struct>, flags: array<nat>, ip: U32, cidr: nat, nhi: Nhi,
                     ghost shapes: seq<Shape>, ghost t: Table)
    returns (ghost shapes': seq<Shape>)
    requires Good(t) && SlotsIn(m, e, flags, shapes, t.slots) && flags !in m.Repr() + KidsFoot(shapes)
    requires 0 < cidr <= LENGTH && HostZero(ip, cidr)
    modifies m.Repr(), e, flags, KidsFoot(shapes)
    ensures AllPacked(t.slots) && SlotsIn(m, e, flags, shapes', TableInsert(t.slots, ip, cidr, nhi))
    ensures fresh(KidsFoot(shapes') - KidsFoot(shapes))
  {
    hide *;
    InsertFinds(t, ip, cidr, nhi);
    IndexBound(ip);
    var index := Index(ip);
    if cidr <= INITIAL_BITS {
      shapes' := PushAll(m, e, flags, index, Pow2(INITIAL_BITS - cidr), cidr, nhi, shapes, t.slots);
    } else {
      shapes' := AddBelowAt(m, e, flags, index, Shl32(ip, INITIAL_BITS), cidr - INITIAL_BITS, nhi, shapes, t.slots);
    }
  }

  lemma {:induction false} IndexBound(ip: U32)
    ensures Index(ip) < SLOTS
  {
  }

  lemma {:induction false} TableParts(m: Mm, e: array<Struct>, flags: array<nat>, upM: Mm, up: array<Struct>,
                                      shapes: seq<Shape>, us: Shape, t: Table)
    requires TableIn(m, e, flags, upM, up, shapes, us, t)
    ensures Good(t) && t.aux == Data(us) && Packed(t.aux)
    ensures SlotsIn(m, e, flags, shapes, t.slots) && flags !in m.Repr() + KidsFoot(shapes)
    ensures Owned(upM, Ptr(up, 0), us, 0) && Sums(upM.units, [t.aux])
    ensures Lower(m, e, flags, shapes) !! Upper(upM, up, us)
    ensures m.Repr() + {e, flags} + KidsFoot(shapes) !! upM.Repr() + {up} + Foot(us)
    ensures At(Ptr(up, 0), us) && Match(us, 0) && 0 < up.Length
    ensures allocated(Lower(m, e, flags, shapes)) && allocated(Upper(upM, up, us))
    ensures allocated(KidsFoot(shapes)) && allocated(Foot(us)) && allocated(m.Repr()) && allocated(upM.Repr())
    ensures Upper(upM, up, us) == upM.Repr() + {up} + Foot(us)
    ensures Lower(m, e, flags, shapes) == m.Repr() + {e, flags} + KidsFoot(shapes)
    ensures upM in upM.Repr() && m in m.Repr()
  {
    KidsAlloc(shapes);
    FootAlloc(us);
  }

  lemma {:induction false} TableBuilt(m: Mm, e: array<Struct>, flags: array<nat>, upM: Mm, up: array<Struct>,
                                      shapes: seq<Shape>, us: Shape, t: Table)
    requires Good(t) && t.aux == Data(us)
    requires SlotsIn(m, e, flags, shapes, t.slots) && flags !in m.Repr() + KidsFoot(shapes)
    requires Owned(upM, Ptr(up, 0), us, 0) && Sums(upM.units, [t.aux])
    requires m.Repr() + {e, flags} + KidsFoot(shapes) !! upM.Repr() + {up} + Foot(us)
    ensures TableIn(m, e, flags, upM, up, shapes, us, t)
  {
  }

  lemma {:induction false} NothingNew(a: set<object>)
    ensures a - a == {}
  {
  }

  /** What a changed table owns in addition. */
  lemma {:induction false} Footprints(m: Mm, e: array<Struct>, flags: array<nat>, upM: Mm, up: array<Struct>,
                                      shapes: seq<Shape>, us: Shape, shapes': seq<Shape>, us': Shape)
    returns (bigger: set<object>)
    ensures bigger == Lower(m, e, flags, shapes') + Upper(upM, up, us')
    ensures forall o | o in bigger - (Lower(m, e, flags, shapes) + Upper(upM, up, us))
                     :: o in KidsFoot(shapes') - KidsFoot(shapes) || o in Foot(us') - Foot(us)
  {
    bigger := Lower(m, e, flags, shapes') + Upper(upM, up, us');
  }

  lemma {:induction false} AuxBooked(u: seq<int>, v: seq<int>, t: Tree, r: Tree)
    requires Sums(u, [t]) && Follows(u, v, t, r)
    ensures Sums(v, [r])
  {
    SumsUpdate(u, v, [t], 0, r);
    assert [t][0 := r] == [r];
  }

  lemma {:induction false} InsertSteps(t: Table, ip: U32, cidr: nat, nhi: Nhi)
    requires Good(t) && cidr <= LENGTH && HostZero(ip, cidr)
    ensures Packed(t.aux) && AllPacked(t.slots) && Allowed(Map(t.aux), Insert(ip, cidr, nhi))
    ensures cidr == 0 ==> TableStep(t, Insert(ip, cidr, nhi)) == t
    ensures cidr > 0 ==> TableStep(t, Insert(ip, cidr, nhi))
                         == Table(InsertT(t.aux, Key(ip, cidr), nhi), TableInsert(t.slots, ip, cidr, nhi))
  {
    hide Consistent, InsertT, TableInsert;
    ConsistentPacked(t.aux, t.slots);
    GoodAux(t);
  }

  /** tbm_insert_prefix: one step of the table, in place. */
  method InsertTable(m: Mm, e: array<Struct>, flags: array<nat>, upM: Mm, up: array<Struct>,
                     ip: U32, cidr: nat, nhi: Nhi, ghost shapes: seq<Shape>, ghost us: Shape, ghost t: Table)
    returns (r: int, ghost shapes': seq<Shape>, ghost us': Shape)
    requires TableIn(m, e, flags, upM, up, shapes, us, t)
    requires cidr <= LENGTH && HostZero(ip, cidr)
    modifies Lower(m, e, flags, shapes), Upper(upM, up, us)
    ensures Good(t) && Allowed(Map(t.aux), Insert(ip, cidr, nhi))
    ensures TableIn(m, e, flags, upM, up, shapes', us', TableStep(t, Insert(ip, cidr, nhi)))
    ensures r == if cidr == 0 then -1 else 0
    ensures fresh(Lower(m, e, flags, shapes') + Upper(upM, up, us') - (Lower(m, e, flags, shapes) + Upper(upM, up,
          us)))
  {
    hide *;
    TableParts(m, e, flags, upM, up, shapes, us, t);
    InsertSteps(t, ip, cidr, nhi);
    shapes', us' := shapes, us;
    if cidr == 0 {
      NothingNew(Lower(m, e, flags, shapes) + Upper(upM, up, us));
      return -1, shapes, us;
    }
    shapes' := InsertSlots(m, e, flags, ip, cidr, nhi, shapes, t);
    ghost var own := KidsObjects(shapes');
    KidsAlloc(shapes');
    label before:
    r, us' := InsertAux(upM, up, ip, cidr, nhi, us);
    ghost var upOwn := FootObjects(us');
    forall o | o in upOwn && o !in Foot(us) ensures fresh(o) {
      assert fresh@before(o);
    }
    ghost var bigger := Footprints(m, e, flags, upM, up, shapes, us, shapes', us');
    forall o | o in bigger && o !in (Lower(m, e, flags, shapes) + Upper(upM, up, us)) ensures fresh(o) {
      assert o in own - KidsFoot(shapes) || o in upOwn - Foot(us);
    }
    TableStepGood(t, Insert(ip, cidr, nhi));
    TableBuilt(m, e, flags, upM, up, shapes', us', TableStep(t, Insert(ip, cidr, nhi)));
    r := 0;
  }

  lemma {:induction false} TableStepGood(t: Table, op: Op)
    requires Good(t) && Allowed(Map(t.aux), op)
    ensures Good(TableStep(t, op))
  {
  }

  method InsertAux(upM: Mm, up: array<Struct>, ip: U32, cidr: nat, nhi: Nhi, ghost us: Shape)
    returns (r: int, ghost us': Shape)
    requires 0 < up.Length && Owned(upM, Ptr(up, 0), us, 0) && Packed(Data(us)) && Sums(upM.units, [Data(us)])
    requires cidr <= LENGTH && HostZero(ip, cidr)
    modifies upM.Repr(), up, Foot(us)
    ensures Owned(upM, Ptr(up, 0), us', 0) && Data(us') == InsertT(Data(us), Key(ip, cidr), nhi)
    ensures Sums(upM.units, [Data(us')]) && fresh(Foot(us') - Foot(us))
  {
    hide *;
    ghost var v := upM.units;
    r, us' := InsertPrefix(Ptr(up, 0), upM, ip, cidr, nhi, us);
    AuxBooked(v, upM.units, Data(us), Data(us'));
  }

  // ----- delete -----------------------------------------------------------------------

  /** Some covered slot holds no longer pushed prefix. */
  ghost predicate Uncovered(slots: seq<Slot>, from: nat, n: nat, cidr: nat) {
    exists i :: 0 <= i < |slots| && Covering(from, n, i) && slots[i].hi <= cidr
  }

  /** The calls of destroy_nhi by tbm_delete_prefix: the removed next hop, once, if any slot held it. */
  ghost function DeleteCalls(t: Table, ip: U32, cidr: nat): seq<Nhi>
    requires Good(t) && 0 < cidr <= LENGTH && Get(t.aux, Key(ip, cidr)).Some?
  {
    if cidr > INITIAL_BITS || Uncovered(t.slots, Index(ip), Pow2(INITIAL_BITS - cidr), cidr)
    then [Get(t.aux, Key(ip, cidr)).value] else []
  }

  lemma {:induction false} PopCallsAre(slots: seq<Slot>, from: nat, n: nat, cidr: nat, v: Nhi)
    requires AllPacked(slots) && PopReady(slots, from, n, cidr) && from + n <= SLOTS
    requires forall i | 0 <= i < SLOTS && Covering(from, n, i) && slots[i].hi <= cidr :: RuleIn(slots[i], cidr) == v
    ensures PopCalls(slots, from, n, cidr) == if Uncovered(slots, from, n, cidr) then [v] else []
  {
    if n > 0 {
      var k := from + n - 1;
      PopCallsNext(slots, from, n - 1, cidr);
      forall i | 0 <= i < SLOTS && Covering(from, n - 1, i)
          && slots[i].hi <= cidr ensures RuleIn(slots[i], cidr) == v {
        assert Covering(from, n, i);
      }
      PopCallsAre(slots, from, n - 1, cidr, v);
      assert Covering(from, n, k);
      assert Uncovered(slots, from, n, cidr) <==> Uncovered(slots, from, n - 1, cidr) || slots[k].hi <= cidr by {
        if Uncovered(slots, from, n - 1, cidr) {
          var i :| 0 <= i < |slots| && Covering(from, n - 1, i) && slots[i].hi <= cidr;
          assert Covering(from, n, i);
        }
        if Uncovered(slots, from, n, cidr) {
          var i :| 0 <= i < |slots| && Covering(from, n, i) && slots[i].hi <= cidr;
          assert i == k || Covering(from, n - 1, i);
        }
      }
    }
  }

  /** What a short delete finds. */
  lemma {:induction false} DeleteFindsShort(t: Table, ip: U32, cidr: nat)
    requires Good(t) && 0 < cidr <= INITIAL_BITS && HostZero(ip, cidr) && Get(t.aux, Key(ip, cidr)).Some?
    ensures AllPacked(t.slots) && |t.slots| == SLOTS && INITIAL_BITS == 13 && LENGTH == 32
    ensures Index(ip) + Pow2(INITIAL_BITS - cidr) <= SLOTS
    ensures PopReady(t.slots, Index(ip), Pow2(INITIAL_BITS - cidr), cidr)
    ensures TableDelete(t.aux, t.slots, ip, cidr)
         == Popped(t.slots, Index(ip), Pow2(INITIAL_BITS - cidr), cidr, Near(t.aux, ip, cidr))
    ensures PopCalls(t.slots, Index(ip), Pow2(INITIAL_BITS - cidr), cidr) == DeleteCalls(t, ip, cidr)
    ensures Near(t.aux, ip, cidr) == Longest(Map(t.aux), Addr(ip), Min(cidr, INITIAL_BITS))
  {
    var n := Pow2(INITIAL_BITS - cidr);
    ConsistentPacked(t.aux, t.slots);
    CoversIff(ip, cidr, Index(ip));
    DeletePopReady(t.aux, t.slots, ip, cidr);
    var v := Get(t.aux, Key(ip, cidr)).value;
    forall i | 0 <= i < SLOTS && Covering(Index(ip), n, i)
        && t.slots[i].hi <= cidr ensures RuleIn(t.slots[i], cidr) == v {
      DeleteReady(t.aux, t.slots, ip, cidr, i);
    }
    PopCallsAre(t.slots, Index(ip), n, cidr, v);
  }

  /** What a long delete finds. */
  lemma {:induction false} DeleteFindsLong(t: Table, ip: U32, cidr: nat)
    requires Good(t) && INITIAL_BITS < cidr <= LENGTH && HostZero(ip, cidr) && Get(t.aux, Key(ip, cidr)).Some?
    ensures AllPacked(t.slots) && |t.slots| == SLOTS && INITIAL_BITS == 13 && LENGTH == 32
    ensures HostZero(Shl32(ip, INITIAL_BITS), cidr - INITIAL_BITS)
    ensures var sl, k, near := t.slots[Index(ip)], Key(Shl32(ip, INITIAL_BITS), cidr - INITIAL_BITS), Near(t.aux,
          ip, cidr);
            && Packed(sl.trie) && sl.child && Get(sl.trie, k) == Get(t.aux, Key(ip, cidr))
            && DeleteCalls(t, ip, cidr) == [Get(sl.trie, k).value]
            && Packed(DeleteT(sl.trie, k))
            && TableDelete(t.aux, t.slots, ip, cidr)
               == t.slots[Index(ip) := if Empty(DeleteT(sl.trie, k))
                                       then Slot(LenOf(near), false, if LenOf(near) == 0 then NULL else NhiOf(near),
                                                 DeleteT(sl.trie, k))
                                       else sl.(trie := DeleteT(sl.trie, k))]
    ensures Near(t.aux, ip, cidr) == Longest(Map(t.aux), Addr(ip), Min(cidr, INITIAL_BITS))
  {
    ConsistentPacked(t.aux, t.slots);
    LowKeyIs(ip, cidr);
    DeleteReadyLong(t.aux, t.slots, ip, cidr);
  }

  /** The part of tbm_delete_prefix for a prefix of at most 13 bits. */
  method DeleteShort(m: Mm, e: array<Struct>, flags: array<nat>, up: array<Struct>, ip: U32, cidr: nat, notify: bool,
                     ghost shapes: seq<Shape>, ghost us: Shape, ghost t: Table)
    returns (calls: seq<Nhi>, ghost shapes': seq<Shape>)
    requires Good(t) && SlotsIn(m, e, flags, shapes, t.slots) && flags !in m.Repr() + KidsFoot(shapes)
    requires t.aux == Data(us) && At(Ptr(up, 0), us) && Match(us, 0) && Packed(Data(us))
    requires 0 < cidr <= INITIAL_BITS && HostZero(ip, cidr) && Get(t.aux, Key(ip, cidr)).Some?
    modifies m.Repr(), e, flags, KidsFoot(shapes)
    ensures SlotsIn(m, e, flags, shapes', TableDelete(t.aux, t.slots, ip, cidr))
    ensures calls == if notify then DeleteCalls(t, ip, cidr) else []
    ensures fresh(KidsFoot(shapes') - KidsFoot(shapes))
  {
    hide *;
    DeleteFindsShort(t, ip, cidr);
    KidsAlloc(shapes);
    ReprAlloc(m);
    ghost var hit := Near(t.aux, ip, cidr);
    var prefixNear, nhiNear := DetectOverlapGeneric(Ptr(up, 0), ip, cidr, INITIAL_BITS, NULL, us);
    label before:
    calls, shapes' := PopAll(m, e, flags, Index(ip), Pow2(INITIAL_BITS - cidr), cidr, prefixNear, nhiNear, notify,
                             hit, shapes, t.slots);
    ghost var own := KidsObjects(shapes');
    forall o | o in own && o !in KidsFoot(shapes) ensures fresh(o) {
      assert fresh@before(o);
    }
  }

  /** The part of tbm_delete_prefix for a longer prefix. */
  method DeleteLong(m: Mm, e: array<Struct>, flags: array<nat>, up: array<Struct>, ip: U32, cidr: nat, notify: bool,
                    ghost shapes: seq<Shape>, ghost us: Shape, ghost t: Table)
    returns (calls: seq<Nhi>, ghost shapes': seq<Shape>)
    requires Good(t) && SlotsIn(m, e, flags, shapes, t.slots) && flags !in m.Repr() + KidsFoot(shapes)
    requires t.aux == Data(us) && At(Ptr(up, 0), us) && Match(us, 0) && Packed(Data(us))
    requires m.Repr() + {e, flags} + KidsFoot(shapes) !! {up} + Foot(us)
    requires INITIAL_BITS < cidr <= LENGTH && HostZero(ip, cidr) && Get(t.aux, Key(ip, cidr)).Some?
    modifies m.Repr(), e, flags, KidsFoot(shapes)
    ensures SlotsIn(m, e, flags, shapes', TableDelete(t.aux, t.slots, ip, cidr))
    ensures calls == if notify then DeleteCalls(t, ip, cidr) else []
    ensures fresh(KidsFoot(shapes') - KidsFoot(shapes))
  {
    hide *;
    DeleteFindsLong(t, ip, cidr);
    IndexBound(ip);
    FootAlloc(us);
    ghost var slots := t.slots;
    SlotsAt(m, e, flags, shapes, slots, Index(ip));
    calls, shapes' := [], shapes;
    var index := Index(ip);
    if HasChild(flags[index]) {
      ghost var sl, k := slots[index], Key(Shl32(ip, INITIAL_BITS), cidr - INITIAL_BITS);
      var ret;
      ret, calls, shapes' := DeleteBelowAt(m, e, flags, index, Shl32(ip, INITIAL_BITS), cidr - INITIAL_BITS, notify,
                                           shapes, slots);
      if ret != 0 {
        KidsAlloc(shapes');
        ReprAlloc(m);
        ghost var mid := slots[index := sl.(trie := DeleteT(sl.trie, k))];
        var prefixNear, nhiNear := DetectOverlapGeneric(Ptr(up, 0), ip, cidr, INITIAL_BITS, NULL, us);
        ToPtr(m, e, flags, index, prefixNear, nhiNear, shapes', mid);
        ghost var done := Slot(prefixNear, false, if prefixNear == 0 then NULL else nhiNear, DeleteT(sl.trie, k));
        assert mid[index := done] == slots[index := done];
      }
    }
  }

  lemma {:induction false} DeleteSteps(t: Table, ip: U32, cidr: nat)
    requires Good(t) && Allowed(Map(t.aux), Delete(ip, cidr))
    ensures Packed(t.aux) && cidr <= LENGTH && HostZero(ip, cidr)
    ensures cidr == 0 ==> TableStep(t, Delete(ip, cidr)) == t
    ensures cidr > 0 ==> Get(t.aux, Key(ip, cidr)).Some?
    ensures cidr > 0 ==> TableStep(t, Delete(ip, cidr))
                         == Table(DeleteT(t.aux, Key(ip, cidr)), TableDelete(t.aux, t.slots, ip, cidr))
  {
    hide Consistent, DeleteT, TableDelete, Map;
    GoodAux(t);
    if cidr > 0 { MapHas(t.aux, Key(ip, cidr)); }
  }

  /** The calls of destroy_nhi that a delete makes. */
  ghost function CallsOf(t: Table, ip: U32, cidr: nat, notify: bool): seq<Nhi>
    requires Good(t) && Allowed(Map(t.aux), Delete(ip, cidr))
  {
    DeleteSteps(t, ip, cidr);
    if cidr == 0 || !notify then [] else DeleteCalls(t, ip, cidr)
  }

  /** Longer short prefixes cover every slot that k covers. */
  ghost predicate Shadowed(aux: Tree, k: Bits)
    requires Packed(aux) && |k| <= INITIAL_BITS
  {
    forall i: nat | i < SLOTS
        && ToBits(i, INITIAL_BITS)[..|k|] == k :: LenOf(Cover(aux, ToBits(i, INITIAL_BITS))) > |k|
  }

  lemma {:induction false} ShadowedIff(t: Table, ip: U32, cidr: nat)
    requires Good(t) && 0 < cidr <= INITIAL_BITS && HostZero(ip, cidr)
    ensures Packed(t.aux) && |t.slots| == SLOTS
    ensures Shadowed(t.aux, Key(ip, cidr)) <==> !Uncovered(t.slots, Index(ip), Pow2(INITIAL_BITS - cidr), cidr)
  {
    hide Cover, Get, Packs, Fits, Canonical;
    var n, k := Pow2(INITIAL_BITS - cidr), Key(ip, cidr);
    forall i: nat | i < SLOTS
      ensures Covering(Index(ip), n, i) <==> ToBits(i, INITIAL_BITS)[..cidr] == k
      ensures t.slots[i].hi == LenOf(Cover(t.aux, ToBits(i, INITIAL_BITS)))
    {
      CoversIff(ip, cidr, i);
      assert SlotOk(t.aux, ToBits(i, INITIAL_BITS), t.slots[i]);
    }
    if Uncovered(t.slots, Index(ip), n, cidr) {
      var i :| 0 <= i < |t.slots| && Covering(Index(ip), n, i) && t.slots[i].hi <= cidr;
      assert ToBits(i, INITIAL_BITS)[..|k|] == k;
    }
  }

  /** destroy_nhi is called at most once, on the removed next hop; not at all exactly when the prefix
      is short and longer pushed prefixes shadow it in every slot. */
  lemma {:induction false} CallsOnce(t: Table, ip: U32, cidr: nat)
    requires Good(t) && Allowed(Map(t.aux), Delete(ip, cidr)) && cidr > 0
    ensures Packed(t.aux) && Get(t.aux, Key(ip, cidr)).Some?
    ensures CallsOf(t, ip, cidr, true)
         == if cidr <= INITIAL_BITS && Shadowed(t.aux, Key(ip, cidr)) then [] else [Get(t.aux, Key(ip, cidr)).value]
  {
    hide Consistent, Get, Packs, Shadowed, Uncovered, Allowed, Map;
    DeleteSteps(t, ip, cidr);
    if cidr <= INITIAL_BITS { ShadowedIff(t, ip, cidr); }
  }

  method DeleteAux(upM: Mm, up: array<Struct>, ip: U32, cidr: nat, ghost us: Shape) returns (ghost us': Shape)
    requires 0 < up.Length && Owned(upM, Ptr(up, 0), us, 0) && Packed(Data(us)) && Sums(upM.units, [Data(us)])
    requires cidr <= LENGTH && HostZero(ip, cidr) && Get(Data(us), Key(ip, cidr)).Some?
    modifies upM.Repr(), up, Foot(us)
    ensures Owned(upM, Ptr(up, 0), us', 0) && Data(us') == DeleteT(Data(us), Key(ip, cidr))
    ensures Sums(upM.units, [Data(us')]) && fresh(Foot(us') - Foot(us))
  {
    hide *;
    ghost var v := upM.units;
    var r, calls;
    r, calls, us' := DeletePrefix(Ptr(up, 0), upM, ip, cidr, false, us);
    AuxBooked(v, upM.units, Data(us), Data(us'));
  }

  /** tbm_delete_prefix: one step of the table, in place. */
  method DeleteTable(m: Mm, e: array<Struct>, flags: array<nat>, upM: Mm, up: array<Struct>,
                     ip: U32, cidr: nat, notify: bool, ghost shapes: seq<Shape>, ghost us: Shape, ghost t: Table)
    returns (r: int, calls: seq<Nhi>, ghost shapes': seq<Shape>, ghost us': Shape)
    requires TableIn(m, e, flags, upM, up, shapes, us, t)
    requires Good(t) && Allowed(Map(t.aux), Delete(ip, cidr))
    modifies Lower(m, e, flags, shapes), Upper(upM, up, us)
    ensures TableIn(m, e, flags, upM, up, shapes', us', TableStep(t, Delete(ip, cidr)))
    ensures r == if cidr == 0 then -1 else 0
    ensures calls == CallsOf(t, ip, cidr, notify)
    ensures fresh(Lower(m, e, flags, shapes') + Upper(upM, up, us') - (Lower(m, e, flags, shapes) + Upper(upM, up,
          us)))
  {
    hide *;
    TableParts(m, e, flags, upM, up, shapes, us, t);
    DeleteSteps(t, ip, cidr);
    shapes', us' := shapes, us;
    CallsNone(t, ip, cidr, notify);
    if cidr == 0 {
      NothingNew(Lower(m, e, flags, shapes) + Upper(upM, up, us));
      return -1, [], shapes, us;
    }
    ghost var v := upM.units;
    if cidr <= INITIAL_BITS {
      calls, shapes' := DeleteShort(m, e, flags, up, ip, cidr, notify, shapes, us, t);
    } else {
      calls, shapes' := DeleteLong(m, e, flags, up, ip, cidr, notify, shapes, us, t);
    }
    ghost var own := KidsObjects(shapes');
    KidsAlloc(shapes');
    label before:
    us' := DeleteAux(upM, up, ip, cidr, us);
    ghost var upOwn := FootObjects(us');
    forall o | o in upOwn && o !in Foot(us) ensures fresh(o) {
      assert fresh@before(o);
    }
    ghost var bigger := Footprints(m, e, flags, upM, up, shapes, us, shapes', us');
    forall o | o in bigger && o !in (Lower(m, e, flags, shapes) + Upper(upM, up, us)) ensures fresh(o) {
      assert o in own - KidsFoot(shapes) || o in upOwn - Foot(us);
    }
    TableStepGood(t, Delete(ip, cidr));
    TableBuilt(m, e, flags, upM, up, shapes', us', TableStep(t, Delete(ip, cidr)));
    r := 0;
  }

  lemma {:induction false} CallsNone(t: Table, ip: U32, cidr: nat, notify: bool)
    requires Good(t) && Allowed(Map(t.aux), Delete(ip, cidr))
    ensures cidr == 0 ==> CallsOf(t, ip, cidr, notify) == []
    ensures cidr > 0 ==> Packed(t.aux) && Get(t.aux, Key(ip, cidr)).Some?
                         && CallsOf(t, ip, cidr, notify) == if notify then DeleteCalls(t, ip, cidr) else []
  {
    hide Consistent, DeleteCalls;
    GoodAux(t);
  }

  // ----- search -----------------------------------------------------------------------

  lemma {:induction false} SearchFinds(m: Mm, e: array<Struct>, flags: array<nat>, upM: Mm, up: array<Struct>,
                                       shapes: seq<Shape>, us: Shape, t: Table, ip: U32)
    requires TableIn(m, e, flags, upM, up, shapes, us, t)
    ensures e.Length == flags.Length == |shapes| == |t.slots| == SLOTS && Index(ip) < SLOTS && INITIAL_BITS < 32
    ensures Packed(t.aux) && REST <= LENGTH && LENGTH + 1 <= |Addr(ip)| + 1
    ensures var i, a := Index(ip), Longest(Map(t.aux), Addr(ip), LENGTH + 1);
            && HasChild(flags[i]) == t.slots[i].child
            && Foot(shapes[i]) <= KidsFoot(shapes)
            && (t.slots[i].child ==>
                  && At(Ptr(e, i), shapes[i]) && Match(shapes[i], 0) && Packed(Data(shapes[i]))
                      && Fits(Data(shapes[i]), REST)
                  && NhiOf(Answer(Data(shapes[i]), Addr(Shl32(ip, INITIAL_BITS)), REST)) == NhiOf(a))
            && (!t.slots[i].child ==> e[i].external == NhiOf(a))
  {
    hide Packs, Matches, Fits, Longest, Answer;
    var i := Index(ip);
    SlotsAt(m, e, flags, shapes, t.slots, i);
    LookupIsLongest(t.aux, t.slots, ip);
    assert SlotOk(t.aux, ToBits(i, INITIAL_BITS), t.slots[i]);
    AllMatchRemove(shapes, i, 0);
  }

  /** tbm_search: the longest match of the address in the auxiliary trie. */
  method SearchTable(fct: seq<Word>, mark: array<LazyTravel>, m: Mm, e: array<Struct>, flags: array<nat>,
                     ghost upM: Mm, ghost up: array<Struct>, ip: U32,
                     ghost shapes: seq<Shape>, ghost us: Shape, ghost t: Table)
    returns (r: Nhi)
    requires TableIn(m, e, flags, upM, up, shapes, us, t) && Ready(fct)
    requires mark.Length == LEVEL && mark !in Lower(m, e, flags, shapes)
    modifies mark
    ensures Packed(t.aux) && r == NhiOf(Longest(Map(t.aux), Addr(ip), LENGTH + 1))
  {
    hide *;
    SearchFinds(m, e, flags, upM, up, shapes, us, t, ip);
    TableParts(m, e, flags, upM, up, shapes, us, t);
    var index := Index(ip);
    if HasChild(flags[index]) {
      r := DoSearchLazy(fct, mark, Ptr(e, index), Shl32(ip, INITIAL_BITS), shapes[index], REST);
    } else {
      r := e[index].external;
    }
  }

  // ----- tbm_init_trie ----------------------------------------------------------------

  lemma {:induction false} StoreNothing(n: nat) returns (shapes: seq<Shape>)
    ensures shapes == seq(n, _ => NONE) && |shapes| == n
    ensures AllMatch(shapes, 0) && KidsFoot(shapes) == {} && Datas(shapes) == seq(n, _ => EMPTY)
  {
    shapes := seq(n, _ => NONE);
    EmptyShape(0);
    forall i | 0 <= i < n ensures Match(shapes[i], 0) && Foot(shapes[i]) == {} {
    }
    assert KidsFoot(shapes) == {};
    assert Datas(shapes) == seq(n, _ => EMPTY);
  }

  /** Without blocks the counters are at zero. */
  lemma {:induction false} NoUnits(ts: seq<Tree>, d: nat)
    requires forall i | 0 <= i < |ts| :: Packed(ts[i]) && Empty(ts[i])
    ensures KidsUnits(ts, d) == 0
  {
    if ts != [] {
      EmptyTreeUnits(ts[0], d);
      NoUnits(ts[1..], d);
    }
  }

  lemma {:induction false} SumsNothing(n: nat)
    ensures Sums(seq(MAX_LEVEL, _ => 0), seq(n, _ => EMPTY))
  {
    EmptyTree();
    var ts: seq<Tree> := seq(n, _ => EMPTY);
    forall d: nat | d < MAX_LEVEL ensures KidsUnits(ts, d) == 0 {
      NoUnits(ts, d);
    }
  }

  lemma {:induction false} StartIn(m: Mm, e: array<Struct>, flags: array<nat>, upM: Mm, up: array<Struct>)
    returns (shapes: seq<Shape>, us: Shape)
    requires m.Valid() && upM.Valid() && m.units == upM.units == seq(MAX_LEVEL, _ => 0)
    requires m.Repr() !! upM.Repr() && e != up && {e, up, flags} !! m.Repr() + upM.Repr()
    requires e[..] == seq(SLOTS, _ => ZERO) && flags[..] == seq(SLOTS, _ => 0) && up[..] == [ZERO]
        && flags.Length == SLOTS
    ensures TableIn(m, e, flags, upM, up, shapes, us, Start())
    ensures Lower(m, e, flags, shapes) + Upper(upM, up, us) == m.Repr() + upM.Repr() + {e, up} + {flags}
  {
    hide Consistent, Matches, AllMatches, Packs, Fits;
    StartGood();
    shapes := StoreNothing(SLOTS);
    us := NONE;
    EmptyShape(0);
    EmptyTree();
    SumsNothing(SLOTS);
    SumsNothing(1);
    assert seq(1, _ => EMPTY) == [EMPTY];
    StartSlots(flags[..], e[..], shapes);
    assert up[0] == up[..][0];
    ConsistentPacked(EMPTY, Start().slots);
  }

  lemma {:induction false} StartSlots(fl: seq<nat>, xs: seq<Struct>, shapes: seq<Shape>)
    requires fl == seq(SLOTS, _ => 0) && xs == seq(SLOTS, _ => ZERO) && shapes == seq(SLOTS, _ => NONE)
    ensures Holds(fl, xs, shapes, Start().slots)
  {
    FlagsRoundTrip(0, false);
    EmptyShape(0);
    var slots := Start().slots;
    forall i: nat | i < SLOTS ensures SlotHeld(fl[i], xs[i], shapes[i], slots[i]) {
    }
  }

  // ----- accounting -------------------------------------------------------------------

  ghost function TriesOf(slots: seq<Slot>): (r: seq<Tree>)
    ensures |r| == |slots| && forall i | 0 <= i < |slots| :: r[i] == slots[i].trie
  {
    seq(|slots|, i requires 0 <= i < |slots| => slots[i].trie)
  }

  /** Conservation: at every moment the counters of both allocators show, level by level, the units of
      the nodes that are in the slot tries and in the auxiliary trie. */
  lemma {:induction false} Conservation(m: Mm, e: array<Struct>, flags: array<nat>, upM: Mm, up: array<Struct>,
                                        shapes: seq<Shape>, us: Shape, t: Table)
    requires TableIn(m, e, flags, upM, up, shapes, us, t)
    ensures m.Valid() && upM.Valid()
    ensures Sums(m.units, TriesOf(t.slots)) && Sums(upM.units, [t.aux])
    ensures forall d: nat | d < MAX_LEVEL ::
              var n := KidsUnits(TriesOf(t.slots), d);
              && m.lnode[d] < 0x1_0000_0000 && (n - m.lnode[d]) % 0x1_0000_0000 == 0
              && m.lmem[d] < 0x1_0000_0000 && (24 * n - m.lmem[d]) % 0x1_0000_0000 == 0
              && (24 * n < 0x1_0000_0000 ==> m.lnode[d] == n && m.lmem[d] == 24 * n)
    ensures forall d: nat | d < MAX_LEVEL ::
              var n := Units(t.aux, d);
              && upM.lnode[d] < 0x1_0000_0000 && (n - upM.lnode[d]) % 0x1_0000_0000 == 0
              && upM.lmem[d] < 0x1_0000_0000 && (24 * n - upM.lmem[d]) % 0x1_0000_0000 == 0
              && (24 * n < 0x1_0000_0000 ==> upM.lnode[d] == n && upM.lmem[d] == 24 * n)
  {
    hide Consistent, Packs, Matches, Wrap;
    m.Shown();
    upM.Shown();
    forall i: nat | i < SLOTS ensures Datas(shapes)[i] == TriesOf(t.slots)[i] {
      assert SlotHeld(flags[..][i], e[..][i], shapes[i], t.slots[i]);
    }
    assert Datas(shapes) == TriesOf(t.slots);
    forall d: nat | d < MAX_LEVEL ensures KidsUnits([t.aux], d) == Units(t.aux, d) {
    }
  }

  /** The calls of both allocators were legal, and every block of the tries that has a size is in use. */
  lemma {:induction false} LegalCalls(m: Mm, e: array<Struct>, flags: array<nat>, upM: Mm, up: array<Struct>,
                                      shapes: seq<Shape>, us: Shape, t: Table)
    requires TableIn(m, e, flags, upM, up, shapes, us, t)
    ensures Legal(m.log) && Legal(upM.log)
    ensures forall b: Block | b in KidsFoot(shapes) && b.units > 0 :: b in InUse(m.log)
    ensures forall b: Block | b in Foot(us) && b.units > 0 :: b in InUse(upM.log)
  {
    hide Consistent, Packs, Matches, Legal, InUse;
  }

  lemma {:induction false} NothingStored(t: Tree)
    requires Packed(t) && Canonical(t) && forall k: Bits :: Get(t, k) == None
    ensures t == EMPTY
  {
    EmptyTree();
    assert Canonical(EMPTY);
    forall k: Bits ensures Get(t, k) == Get(EMPTY, k) {
    }
    CanonicalUnique(t, EMPTY);
  }

  lemma {:induction false} SlotNothing(p: Bits, sl: Slot)
    requires |p| == INITIAL_BITS && Packed(EMPTY) && SlotOk(EMPTY, p, sl)
    ensures sl.trie == EMPTY
  {
    if sl.child {
      EmptyMap();
      NothingLonger(p, INITIAL_BITS + 1);
      forall k: Bits ensures Get(sl.trie, k) == None {
        EmptyTree();
        assert Get(sl.trie, k) == Wanted(EMPTY, p, k);
      }
      NothingStored(sl.trie);
    }
  }

  /** A table without prefixes holds no node at all. */
  lemma {:induction false} EmptyTable(t: Table)
    requires Good(t) && Map(t.aux) == imap[]
    ensures t.aux == EMPTY && |t.slots| == SLOTS && forall i: nat | i < SLOTS :: t.slots[i].trie == EMPTY
  {
    hide Packs, Fits, SlotOk;
    forall k: Bits ensures Get(t.aux, k) == None {
      assert k !in Map(t.aux);
    }
    NothingStored(t.aux);
    forall i: nat | i < SLOTS ensures t.slots[i].trie == EMPTY {
      assert SlotOk(t.aux, ToBits(i, INITIAL_BITS), t.slots[i]);
      SlotNothing(ToBits(i, INITIAL_BITS), t.slots[i]);
    }
  }

  /** Deleting everything brings every counter back to 0. */
  lemma {:induction false} AllFreed(m: Mm, e: array<Struct>, flags: array<nat>, upM: Mm, up: array<Struct>,
                                    shapes: seq<Shape>, us: Shape, t: Table)
    requires TableIn(m, e, flags, upM, up, shapes, us, t) && Map(t.aux) == imap[]
    ensures m.lnode.Length == m.lmem.Length == upM.lnode.Length == upM.lmem.Length == MAX_LEVEL
    ensures forall d: nat | d < MAX_LEVEL :: m.lnode[d] == m.lmem[d] == upM.lnode[d] == upM.lmem[d] == 0
    ensures m.node == m.mem == upM.node == upM.mem == 0
  {
    hide SlotsIn, Owned, Consistent, Packs;
    Conservation(m, e, flags, upM, up, shapes, us, t);
    EmptyTable(t);
    EmptyTree();
    TableParts(m, e, flags, upM, up, shapes, us, t);
    forall d: nat | d < MAX_LEVEL ensures m.units[d] == 0 && upM.units[d] == 0 {
      NoUnits(TriesOf(t.slots), d);
      NoUnits([t.aux], d);
    }
    TotalZero(m.units);
    TotalZero(upM.units);
  }
}
