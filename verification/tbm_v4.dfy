/** The forwarding table in memory (tbm/tbmv4.c). */
module TbmV4 {
  import opened Words
  import opened Addresses
  import opened Trees
  import opened LongestMatch
  import opened Memory
  import opened Shapes
  import opened MbNode
  import opened Walk
  import opened Overlap
  import opened FrontTable
  import opened Slots
  import opened Flags

  // ----- what the arrays hold ---------------------------------------------------------

  /** The union of a slot: the root struct of its trie, or a next hop where the struct has `external`. */
  ghost predicate SlotHeld(f: nat, x: Struct, s: Shape, sl: Slot) {
    && f == FlagsOf(sl.hi, sl.child) && Data(s) == sl.trie
    && x == Struct(if sl.child then s.ext else sl.ptr, s.inl, s.block)
  }

  ghost predicate Holds(fl: seq<nat>, xs: seq<Struct>, shapes: seq<Shape>, slots: seq<Slot>) {
    && |fl| == |xs| == |shapes| == |slots| == SLOTS
    && forall i: nat | i < SLOTS :: SlotHeld(fl[i], xs[i], shapes[i], slots[i])
  }

  lemma {:induction false} HoldsAt(fl: seq<nat>, xs: seq<Struct>, shapes: seq<Shape>, slots: seq<Slot>, i: nat)
    requires Holds(fl, xs, shapes, slots) && AllPacked(slots) && i < SLOTS
    ensures |fl| == |xs| == |shapes| == |slots| == SLOTS
    ensures HasChild(fl[i]) == slots[i].child && PrefixHi(fl[i]) == slots[i].hi
    ensures Data(shapes[i]) == slots[i].trie && Packed(slots[i].trie)
    ensures slots[i].child ==> xs[i] == RootOf(shapes[i])
    ensures !slots[i].child ==> xs[i].external == slots[i].ptr
    ensures !slots[i].child && slots[i].trie == EMPTY ==> xs[i].(external := 0) == RootOf(shapes[i])
    ensures fl[i] == FlagsOf(slots[i].hi, slots[i].child)
  {
    assert SlotHeld(fl[i], xs[i], shapes[i], slots[i]);
    FlagsRoundTrip(slots[i].hi, slots[i].child);
  }

  lemma {:induction false} HoldsUpdate(fl: seq<nat>, xs: seq<Struct>, shapes: seq<Shape>, slots: seq<Slot>, i: nat,
                                       f: nat, x: Struct, s: Shape, sl: Slot)
    requires Holds(fl, xs, shapes, slots) && i < SLOTS && SlotHeld(f, x, s, sl)
    ensures |fl| == |xs| == |shapes| == |slots| == SLOTS
    ensures Holds(fl[i := f], xs[i := x], shapes[i := s], slots[i := sl])
  {
  }

  lemma {:induction false} OneChanged(e: array<Struct>, i: nat, was: seq<Struct>)
    requires i < e.Length && OthersKept(Ptr(e, i), was)
    ensures |was| == e.Length && e[..] == was[i := e[i]]
  {
  }

  /** A slot whose struct is the root of its trie. */
  lemma {:induction false} HeldTrie(hi: nat, x: Struct, s: Shape, p: Nhi)
    requires x == RootOf(s)
    ensures SlotHeld(FlagsOf(hi, true), x, s, Slot(hi, true, p, Data(s)))
  {
  }

  /** A slot whose struct keeps a next hop in `external`. */
  lemma {:induction false} HeldPtr(hi: nat, x: Struct, s: Shape, p: Nhi)
    requires x.internal == s.inl && x.block == s.block
    ensures SlotHeld(FlagsOf(hi, false), x.(external := p), s, Slot(hi, false, p, Data(s)))
  {
  }

  // ----- one slot ---------------------------------------------------------------------

  /** What the methods on slots start from. */
  ghost predicate SlotsIn(m: Mm, e: array<Struct>, flags: array<nat>, shapes: seq<Shape>, slots: seq<Slot>)
    reads m.Repr(), e, flags, KidsFoot(shapes)
  {
    Store(m, e, shapes) && Holds(flags[..], e[..], shapes, slots) && AllPacked(slots)
  }

  lemma {:induction false} SlotsAt(m: Mm, e: array<Struct>, flags: array<nat>, shapes: seq<Shape>, slots: seq<Slot>,
                                   i: nat)
    requires SlotsIn(m, e, flags, shapes, slots) && i < SLOTS
    ensures Store(m, e, shapes) && Holds(flags[..], e[..], shapes, slots) && AllPacked(slots)
    ensures e.Length == flags.Length == |shapes| == |slots| == SLOTS
    ensures HasChild(flags[i]) == slots[i].child && PrefixHi(flags[i]) == slots[i].hi
    ensures Data(shapes[i]) == slots[i].trie && Packed(slots[i].trie)
    ensures slots[i].child ==> e[i] == RootOf(shapes[i])
    ensures !slots[i].child ==> e[i].external == slots[i].ptr
    ensures !slots[i].child && slots[i].trie == EMPTY ==> e[i].(external := 0) == RootOf(shapes[i])
    ensures flags[i] == FlagsOf(slots[i].hi, slots[i].child)
    ensures SlotHeld(flags[i], e[i], shapes[i], slots[i])
    ensures Foot(shapes[i]) <= KidsFoot(shapes)
  {
    HoldsAt(flags[..], e[..], shapes, slots, i);
    assert SlotHeld(flags[..][i], e[..][i], shapes[i], slots[i]);
  }

  /** A changed slot completes the next state. */
  lemma {:induction false} SlotDone(m: Mm, e: array<Struct>, flags: array<nat>, shapes: seq<Shape>,
                                    slots: seq<Slot>, i: nat,
                                    fl: seq<nat>, xs: seq<Struct>, shapes': seq<Shape>, sl: Slot)
    requires Holds(fl, xs, shapes, slots) && AllPacked(slots) && i < SLOTS == e.Length == flags.Length
    requires |shapes'| == |shapes| && shapes' == shapes[i := shapes'[i]] && Store(m, e, shapes')
    requires flags[..] == fl[i := flags[i]] && e[..] == xs[i := e[i]]
    requires SlotHeld(flags[i], e[i], shapes'[i], sl) && Packed(sl.trie)
    ensures SlotsIn(m, e, flags, shapes', slots[i := sl])
  {
    HoldsUpdate(fl, xs, shapes, slots, i, flags[i], e[i], shapes'[i], sl);
  }

  /** The step of tbm_insert_prefix for a slot that a short prefix covers. */
  method PushAt(m: Mm, e: array<Struct>, flags: array<nat>, i: nat, cidr: nat, nhi: Nhi,
                ghost shapes: seq<Shape>, ghost slots: seq<Slot>)
    returns (ghost shapes': seq<Shape>)
    requires SlotsIn(m, e, flags, shapes, slots) && i < SLOTS && |slots| == SLOTS && Packed(slots[i].trie)
    requires flags !in m.Repr() + KidsFoot(shapes)
    modifies m.Repr(), e, flags, KidsFoot(shapes)
    ensures SlotsIn(m, e, flags, shapes', slots[i := Push(slots[i], cidr, nhi)])
    ensures fresh(KidsFoot(shapes') - KidsFoot(shapes))
  {
    hide *;
    SlotsAt(m, e, flags, shapes, slots, i);
    ghost var fl, xs := flags[..], e[..];
    shapes' := shapes;
    if HasChild(flags[i]) {
      if PrefixHi(flags[i]) > cidr {
        PushNothing(slots, i, cidr, nhi);
      } else {
        PushTrie(slots[i], cidr, nhi);
        flags[i] := WithChildMark(HiOnly(cidr));
        var r;
        label before:
        r, shapes' := InsertAtSlot(m, e, i, 0, 0, nhi, shapes);
        ghost var own := KidsObjects(shapes');
        forall o | o in own && o !in KidsFoot(shapes) ensures fresh(o) {
          assert fresh@before(o);
        }
        OneChanged(e, i, xs);
        HeldTrie(cidr, e[i], shapes'[i], slots[i].ptr);
        SlotDone(m, e, flags, shapes, slots, i, fl, xs, shapes', Push(slots[i], cidr, nhi));
      }
    } else {
      if PrefixHi(flags[i]) > cidr {
        PushNothing(slots, i, cidr, nhi);
      } else {
        PushPtr(slots[i], cidr, nhi);
        HeldPtr(cidr, e[i], shapes[i], nhi);
        flags[i] := HiOnly(cidr);
        e[i] := e[i].(external := nhi);
        SlotDone(m, e, flags, shapes, slots, i, fl, xs, shapes', Push(slots[i], cidr, nhi));
      }
    }
  }

  lemma {:induction false} PushNothing(slots: seq<Slot>, i: nat, cidr: nat, nhi: Nhi)
    requires i < |slots| && Packed(slots[i].trie) && slots[i].hi > cidr
    ensures slots[i := Push(slots[i], cidr, nhi)] == slots
  {
  }

  /** The prefix 0/0. */
  lemma {:induction false} ZeroKey()
    ensures 0 <= LENGTH && HostZero(0, 0) && Key(0, 0) == []
  {
    ZeroBits(LENGTH);
  }

  lemma {:induction false} PushTrie(sl: Slot, cidr: nat, nhi: Nhi)
    requires Packed(sl.trie) && sl.hi <= cidr && sl.child
    ensures Push(sl, cidr, nhi) == Slot(cidr, true, sl.ptr, InsertT(sl.trie, [], nhi))
    ensures WithChildMark(HiOnly(cidr)) == FlagsOf(cidr, true)
    ensures 0 <= LENGTH && HostZero(0, 0) && Key(0, 0) == []
  {
    ZeroKey();
  }

  lemma {:induction false} PushPtr(sl: Slot, cidr: nat, nhi: Nhi)
    requires Packed(sl.trie) && sl.hi <= cidr && !sl.child
    ensures Push(sl, cidr, nhi) == Slot(cidr, false, nhi, sl.trie)
    ensures HiOnly(cidr) == FlagsOf(cidr, false)
  {
  }

  /** The slot with its next hop as the rule of length 0 of a trie. */
  function TrieSlot(sl: Slot): Slot
    requires Packed(sl.trie)
  {
    Slot(sl.hi, true, NULL, if sl.hi > 0 then InsertT(sl.trie, [], sl.ptr) else sl.trie)
  }

  /** A slot with a next hop becomes one with a trie. */
  method ToTrie(m: Mm, e: array<Struct>, flags: array<nat>, i: nat, ghost shapes: seq<Shape>, ghost slots: seq<Slot>)
    returns (ghost shapes': seq<Shape>)
    requires SlotsIn(m, e, flags, shapes, slots) && i < SLOTS && |slots| == SLOTS && Packed(slots[i].trie)
    requires flags !in m.Repr() + KidsFoot(shapes)
    requires !slots[i].child && slots[i].trie == EMPTY && (slots[i].hi == 0 ==> slots[i].ptr == NULL)
    modifies m.Repr(), e, flags, KidsFoot(shapes)
    ensures SlotsIn(m, e, flags, shapes', slots[i := TrieSlot(slots[i])])
    ensures fresh(KidsFoot(shapes') - KidsFoot(shapes))
  {
    hide *;
    SlotsAt(m, e, flags, shapes, slots, i);
    ghost var fl, xs := flags[..], e[..];
    AddPtr(slots[i], e[i]);
    shapes' := shapes;
    if PrefixHi(flags[i]) > 0 {
      var info := e[i].external;
      e[i] := e[i].(external := NULL);
      ghost var ys := e[..];
      var r;
      label before:
      r, shapes' := InsertAtSlot(m, e, i, 0, 0, info, shapes);
      OneChanged(e, i, ys);
      ghost var own := KidsObjects(shapes');
      forall o | o in own && o !in KidsFoot(shapes) ensures fresh(o) {
        assert fresh@before(o);
      }
    }
    flags[i] := WithChildMark(flags[i]);
    HeldTrie(slots[i].hi, e[i], shapes'[i], NULL);
    SlotDone(m, e, flags, shapes, slots, i, fl, xs, shapes', TrieSlot(slots[i]));
  }

  /** The step of tbm_insert_prefix for a prefix longer than 13. */
  method AddBelowAt(m: Mm, e: array<Struct>, flags: array<nat>, i: nat, ip: U32, cidr: nat, nhi: Nhi,
                    ghost shapes: seq<Shape>, ghost slots: seq<Slot>)
    returns (ghost shapes': seq<Shape>)
    requires SlotsIn(m, e, flags, shapes, slots) && i < SLOTS && |slots| == SLOTS && Packed(slots[i].trie)
    requires flags !in m.Repr() + KidsFoot(shapes) && cidr <= LENGTH && HostZero(ip, cidr)
    requires !slots[i].child ==> slots[i].trie == EMPTY && (slots[i].hi == 0 ==> slots[i].ptr == NULL)
    modifies m.Repr(), e, flags, KidsFoot(shapes)
    ensures SlotsIn(m, e, flags, shapes', slots[i := AddBelow(slots[i], Key(ip, cidr), nhi)])
    ensures fresh(KidsFoot(shapes') - KidsFoot(shapes))
  {
    hide *;
    SlotsAt(m, e, flags, shapes, slots, i);
    if HasChild(flags[i]) {
      shapes' := AddInTrie(m, e, flags, i, ip, cidr, nhi, shapes, slots);
    } else {
      AddTwice(slots, i, Key(ip, cidr), nhi);
      KidsAlloc(shapes);
      ReprAlloc(m);
      shapes' := ToTrie(m, e, flags, i, shapes, slots);
      shapes' := AddInTrie(m, e, flags, i, ip, cidr, nhi, shapes', slots[i := TrieSlot(slots[i])]);
    }
  }

  method AddInTrie(m: Mm, e: array<Struct>, flags: array<nat>, i: nat, ip: U32, cidr: nat, nhi: Nhi,
                   ghost shapes: seq<Shape>, ghost slots: seq<Slot>)
    returns (ghost shapes': seq<Shape>)
    requires SlotsIn(m, e, flags, shapes, slots) && i < SLOTS && |slots| == SLOTS && Packed(slots[i].trie)
    requires flags !in m.Repr() + KidsFoot(shapes) && cidr <= LENGTH && HostZero(ip, cidr) && slots[i].child
    modifies m.Repr(), e, flags, KidsFoot(shapes)
    ensures SlotsIn(m, e, flags, shapes', slots[i := AddBelow(slots[i], Key(ip, cidr), nhi)])
    ensures fresh(KidsFoot(shapes') - KidsFoot(shapes))
  {
    hide *;
    SlotsAt(m, e, flags, shapes, slots, i);
    ghost var fl, xs := flags[..], e[..];
    AddTrie(slots[i], Key(ip, cidr), nhi);
    var r;
    r, shapes' := InsertAtSlot(m, e, i, ip, cidr, nhi, shapes);
    OneChanged(e, i, xs);
    HeldTrie(slots[i].hi, e[i], shapes'[i], slots[i].ptr);
    SlotDone(m, e, flags, shapes, slots, i, fl, xs, shapes', AddBelow(slots[i], Key(ip, cidr), nhi));
  }

  lemma {:induction false} AddTwice(slots: seq<Slot>, i: nat, k: Bits, nhi: Nhi)
    requires i < |slots| && Packed(slots[i].trie) && !slots[i].child
    ensures Packed(TrieSlot(slots[i]).trie) && TrieSlot(slots[i]).child
    ensures AddBelow(TrieSlot(slots[i]), k, nhi) == AddBelow(slots[i], k, nhi)
    ensures slots[i := TrieSlot(slots[i])][i := AddBelow(slots[i], k, nhi)] == slots[i := AddBelow(slots[i], k, nhi)]
  {
  }

  lemma {:induction false} AddTrie(sl: Slot, k: Bits, nhi: Nhi)
    requires Packed(sl.trie) && sl.child
    ensures AddBelow(sl, k, nhi) == Slot(sl.hi, true, sl.ptr, InsertT(sl.trie, k, nhi))
  {
  }

  lemma {:induction false} AddPtr(sl: Slot, x: Struct)
    requires Packed(sl.trie) && !sl.child
    ensures sl.hi > 0 ==> TrieSlot(sl) == Slot(sl.hi, true, NULL, InsertT(sl.trie, [], sl.ptr))
    ensures sl.hi == 0 ==> TrieSlot(sl) == Slot(sl.hi, true, NULL, sl.trie)
    ensures Packed(TrieSlot(sl).trie)
    ensures WithChildMark(FlagsOf(sl.hi, false)) == FlagsOf(sl.hi, true)
    ensures 0 <= LENGTH && HostZero(0, 0) && Key(0, 0) == [] && NULL == 0
    ensures x.external == 0 ==> x.(external := 0) == x
  {
    ZeroKey();
    FlagsRoundTrip(sl.hi, false);
  }

  /** The step of tbm_delete_prefix for a slot that a short prefix covers. */
  method PopAt(m: Mm, e: array<Struct>, flags: array<nat>, i: nat, cidr: nat, near: nat, nhiNear: Nhi, notify: bool,
               ghost shapes: seq<Shape>, ghost slots: seq<Slot>)
    returns (skipped: bool, calls: seq<Nhi>, ghost shapes': seq<Shape>)
    requires SlotsIn(m, e, flags, shapes, slots) && i < SLOTS && |slots| == SLOTS && Packed(slots[i].trie)
    requires flags !in m.Repr() + KidsFoot(shapes) && CanPop(slots[i], cidr)
    modifies m.Repr(), e, flags, KidsFoot(shapes)
    ensures SlotsIn(m, e, flags, shapes', slots[i := Pop(slots[i], cidr, near, nhiNear)])
    ensures fresh(KidsFoot(shapes') - KidsFoot(shapes))
    ensures skipped == (slots[i].hi > cidr)
    ensures calls == if notify && !skipped then [RuleIn(slots[i], cidr)] else []
  {
    hide *;
    SlotsAt(m, e, flags, shapes, slots, i);
    PopCases(slots, i, cidr, near, nhiNear);
    ghost var fl, xs := flags[..], e[..];
    var prefix := PrefixHi(flags[i]);
    calls, skipped, shapes' := [], false, shapes;
    if HasChild(flags[i]) {
      if prefix > cidr {
        skipped := true;
        return;
      }
      if near == 0 {
        var ret;
        ret, calls, shapes' := DeleteAtSlot(m, e, i, 0, 0, notify, shapes);
        OneChanged(e, i, xs);
        if ret == 0 {
          flags[i] := WithChildMark(0);
          HeldTrie(0, e[i], shapes'[i], slots[i].ptr);
          SlotDone(m, e, flags, shapes, slots, i, fl, xs, shapes', Pop(slots[i], cidr, near, nhiNear));
        } else {
          HeldRoot(0, e[i], shapes'[i], NULL);
          flags[i] := 0;
          e[i] := e[i].(external := NULL);
          SlotDone(m, e, flags, shapes, slots, i, fl, xs, shapes', Pop(slots[i], cidr, near, nhiNear));
        }
      } else {
        flags[i] := WithChildMark(HiOnly(near));
        calls, shapes' := OverlapAtSlot(m, e, i, notify, nhiNear, shapes);
        HeldTrie(near, e[i], shapes'[i], slots[i].ptr);
        SlotDone(m, e, flags, shapes, slots, i, fl, xs, shapes', Pop(slots[i], cidr, near, nhiNear));
      }
    } else {
      if prefix > cidr {
        skipped := true;
        return;
      }
      if notify {
        calls := [e[i].external];
      }
      if near == 0 {
        HeldPtr(0, e[i], shapes[i], NULL);
        flags[i] := 0;
        e[i] := e[i].(external := NULL);
        SlotDone(m, e, flags, shapes, slots, i, fl, xs, shapes', Pop(slots[i], cidr, near, nhiNear));
      } else {
        HeldPtr(near, e[i], shapes[i], nhiNear);
        flags[i] := HiOnly(near);
        e[i] := e[i].(external := nhiNear);
        SlotDone(m, e, flags, shapes, slots, i, fl, xs, shapes', Pop(slots[i], cidr, near, nhiNear));
      }
    }
  }

  /** The next hop that a delete removes from a slot. */
  function RuleIn(sl: Slot, cidr: nat): Nhi
    requires Packed(sl.trie) && CanPop(sl, cidr)
  {
    if sl.hi > cidr then NULL else if sl.child then Get(sl.trie, []).value else sl.ptr
  }

  lemma {:induction false} HeldRoot(hi: nat, x: Struct, s: Shape, p: Nhi)
    requires x == RootOf(s)
    ensures SlotHeld(FlagsOf(hi, false), x.(external := p), s, Slot(hi, false, p, Data(s)))
  {
    HeldPtr(hi, x, s, p);
  }

  lemma {:induction false} PopCases(slots: seq<Slot>, i: nat, cidr: nat, near: nat, nhiNear: Nhi)
    requires i < |slots| && Packed(slots[i].trie) && CanPop(slots[i], cidr)
    ensures var sl, r := slots[i], Pop(slots[i], cidr, near, nhiNear);
            && (sl.hi > cidr ==> slots[i := r] == slots)
            && (sl.hi <= cidr && sl.child ==>
                  && Get(sl.trie, []).Some? && Packed(DeleteT(sl.trie, [])) && Bit(sl.trie.inl, 0)
                  && Packed(PutRule(sl.trie, 0, nhiNear)) && RuleIn(sl, cidr) == Get(sl.trie, []).value
                  && r == if near != 0 then Slot(near, true, sl.ptr, PutRule(sl.trie, 0, nhiNear))
                          else if Empty(DeleteT(sl.trie, [])) then Slot(0, false, NULL, DeleteT(sl.trie, []))
                          else Slot(0, true, sl.ptr, DeleteT(sl.trie, [])))
            && (sl.hi <= cidr && !sl.child ==>
                  && RuleIn(sl, cidr) == sl.ptr
                  && r == Slot(near, false, if near == 0 then NULL else nhiNear, sl.trie))
    ensures WithChildMark(0) == FlagsOf(0, true) && FlagsOf(0, false) == 0 && HiOnly(near) == FlagsOf(near, false)
    ensures WithChildMark(HiOnly(near)) == FlagsOf(near, true)
    ensures 0 <= LENGTH && HostZero(0, 0) && Key(0, 0) == [] && NULL == 0
  {
    ZeroKey();
    FlagsRoundTrip(0, false);
    var sl := slots[i];
    if sl.hi <= cidr && sl.child {
      RootRule(sl.trie);
      PutRuleKeeps(sl.trie, 0, nhiNear, 0);
    }
  }

  /** The step of tbm_delete_prefix for a prefix longer than 13. */
  method DeleteBelowAt(m: Mm, e: array<Struct>, flags: array<nat>, i: nat, ip: U32, cidr: nat, notify: bool,
                       ghost shapes: seq<Shape>, ghost slots: seq<Slot>)
    returns (ret: int, calls: seq<Nhi>, ghost shapes': seq<Shape>)
    requires SlotsIn(m, e, flags, shapes, slots) && i < SLOTS && |slots| == SLOTS && Packed(slots[i].trie)
    requires flags !in m.Repr() + KidsFoot(shapes) && cidr <= LENGTH && HostZero(ip, cidr)
    requires slots[i].child && Get(slots[i].trie, Key(ip, cidr)).Some?
    modifies m.Repr(), e, KidsFoot(shapes)
    ensures SlotsIn(m, e, flags, shapes', slots[i := slots[i].(trie := DeleteT(slots[i].trie, Key(ip, cidr)))])
    ensures fresh(KidsFoot(shapes') - KidsFoot(shapes))
    ensures ret == if Empty(DeleteT(slots[i].trie, Key(ip, cidr))) then 1 else 0
    ensures calls == if notify then [Get(slots[i].trie, Key(ip, cidr)).value] else []
  {
    hide *;
    SlotsAt(m, e, flags, shapes, slots, i);
    ghost var fl, xs := flags[..], e[..];
    DeletePacked(slots[i].trie, Key(ip, cidr));
    ret, calls, shapes' := DeleteAtSlot(m, e, i, ip, cidr, notify, shapes);
    OneChanged(e, i, xs);
    HeldTrie(slots[i].hi, e[i], shapes'[i], slots[i].ptr);
    ghost var sl := slots[i].(trie := DeleteT(slots[i].trie, Key(ip, cidr)));
    assert sl == Slot(slots[i].hi, true, slots[i].ptr, sl.trie);
    SlotDone(m, e, flags, shapes, slots, i, fl, xs, shapes', sl);
  }

  lemma {:induction false} DeletePacked(t: Tree, k: Bits)
    requires Packed(t) && Get(t, k).Some?
    ensures Packed(DeleteT(t, k))
  {
  }

  /** A slot whose trie is empty keeps a next hop again. */
  method ToPtr(m: Mm, e: array<Struct>, flags: array<nat>, i: nat, near: nat, nhiNear: Nhi,
               ghost shapes: seq<Shape>, ghost slots: seq<Slot>)
    requires SlotsIn(m, e, flags, shapes, slots) && i < SLOTS && |slots| == SLOTS && Packed(slots[i].trie)
    requires flags !in m.Repr() + KidsFoot(shapes) && slots[i].child
    modifies e, flags
    ensures SlotsIn(m, e, flags, shapes, slots[i := Slot(near, false, if near == 0 then NULL
        else nhiNear, slots[i].trie)])
  {
    hide *;
    SlotsAt(m, e, flags, shapes, slots, i);
    ghost var fl, xs := flags[..], e[..];
    ghost var sl := Slot(near, false, if near == 0 then NULL else nhiNear, slots[i].trie);
    HeldRoot(near, e[i], shapes[i], sl.ptr);
    ToPtrFlags(near);
    if near == 0 {
      flags[i] := 0;
      e[i] := e[i].(external := NULL);
    } else {
      flags[i] := HiOnly(near);
      e[i] := e[i].(external := nhiNear);
    }
    SlotDone(m, e, flags, shapes, slots, i, fl, xs, shapes, sl);
  }

  lemma {:induction false} ToPtrFlags(near: nat)
    ensures near == 0 ==> FlagsOf(near, false) == 0
    ensures HiOnly(near) == FlagsOf(near, false)
  {
    FlagsRoundTrip(near, false);
  }

  // ----- all slots of a prefix --------------------------------------------------------

  lemma {:induction false} PushedNext(slots: seq<Slot>, from: nat, n: nat, cidr: nat, nhi: Nhi)
    requires AllPacked(slots) && from + n < SLOTS
    ensures var p := Pushed(slots, from, n, cidr, nhi);
            && from + n < |p| && Packed(p[from + n].trie)
            && p[from + n := Push(p[from + n], cidr, nhi)] == Pushed(slots, from, n + 1, cidr, nhi)
  {
    var p, q := Pushed(slots, from, n, cidr, nhi), Pushed(slots, from, n + 1, cidr, nhi);
    forall i | 0 <= i < SLOTS ensures q[i] == p[from + n := Push(p[from + n], cidr, nhi)][i] {
    }
  }

  lemma {:induction false} PushedNone(slots: seq<Slot>, from: nat, cidr: nat, nhi: Nhi)
    requires AllPacked(slots)
    ensures Pushed(slots, from, 0, cidr, nhi) == slots
  {
  }

  /** The loop of tbm_insert_prefix. */
  method PushAll(m: Mm, e: array<Struct>, flags: array<nat>, index: nat, n: nat, cidr: nat, nhi: Nhi,
                 ghost shapes0: seq<Shape>, ghost slots: seq<Slot>)
    returns (ghost shapes: seq<Shape>)
    requires SlotsIn(m, e, flags, shapes0, slots) && index + n <= SLOTS && |slots| == SLOTS && AllPacked(slots)
    requires flags !in m.Repr() + KidsFoot(shapes0)
    modifies m.Repr(), e, flags, KidsFoot(shapes0)
    ensures SlotsIn(m, e, flags, shapes, Pushed(slots, index, n, cidr, nhi))
    ensures fresh(KidsFoot(shapes) - KidsFoot(shapes0))
  {
    hide *;
    shapes := shapes0;
    PushedNone(slots, index, cidr, nhi);
    KidsAlloc(shapes0);
    ghost var own := KidsObjects(shapes);
    for i := 0 to n
      invariant SlotsIn(m, e, flags, shapes, Pushed(slots, index, i, cidr, nhi))
      invariant own == KidsFoot(shapes) && flags !in own && fresh(own - KidsFoot(shapes0))
    {
      PushedNext(slots, index, i, cidr, nhi);
      ghost var was := own;
      label before:
      shapes := PushAt(m, e, flags, index + i, cidr, nhi, shapes, Pushed(slots, index, i, cidr, nhi));
      own := KidsObjects(shapes);
      forall o | o in own && o !in KidsFoot(shapes0) ensures fresh(o) {
        if o !in was { assert fresh@before(o); }
      }
    }
  }

  lemma {:induction false} PoppedNext(slots: seq<Slot>, from: nat, n: nat, cidr: nat, near: Option<Hit>)
    requires AllPacked(slots) && from + n < SLOTS
    requires PopReady(slots, from, n + 1, cidr)
    ensures PopReady(slots, from, n, cidr)
    ensures var p := Popped(slots, from, n, cidr, near);
            && from + n < |p| && p[from + n] == slots[from + n] && Packed(p[from + n].trie)
                && CanPop(p[from + n], cidr)
            && p[from + n := Pop(p[from + n], cidr, LenOf(near), NhiOf(near))]
               == Popped(slots, from, n + 1, cidr, near)
  {
    assert Covering(from, n + 1, from + n);
    var p, q := Popped(slots, from, n, cidr, near), Popped(slots, from, n + 1, cidr, near);
    forall i | 0 <= i < SLOTS ensures q[i] == p[from + n := Pop(p[from + n], cidr, LenOf(near), NhiOf(near))][i] {
    }
  }

  lemma {:induction false} PoppedNone(slots: seq<Slot>, from: nat, cidr: nat, near: Option<Hit>)
    requires AllPacked(slots)
    ensures PopReady(slots, from, 0, cidr)
    ensures Popped(slots, from, 0, cidr, near) == slots
  {
  }

  /** The calls of destroy_nhi in the loop: one, for the first slot that is not skipped. */
  ghost function PopCalls(slots: seq<Slot>, from: nat, n: nat, cidr: nat): (r: seq<Nhi>)
    requires AllPacked(slots) && from + n <= SLOTS
    requires PopReady(slots, from, n, cidr)
    ensures |r| <= 1
  {
    if n == 0 then [] else
      var k := from + n - 1;
      assert Covering(from, n, k);
      assert forall i | Covering(from, n - 1, i) :: Covering(from, n, i);
      var c := PopCalls(slots, from, n - 1, cidr);
      if c != [] || slots[k].hi > cidr then c else [RuleIn(slots[k], cidr)]
  }

  lemma {:induction false} PopCallsNext(slots: seq<Slot>, from: nat, n: nat, cidr: nat)
    requires AllPacked(slots) && from + n < SLOTS
    requires PopReady(slots, from, n + 1, cidr)
    ensures PopReady(slots, from, n, cidr)
    ensures Packed(slots[from + n].trie) && CanPop(slots[from + n], cidr)
    ensures var c := PopCalls(slots, from, n, cidr);
            PopCalls(slots, from, n + 1, cidr)
              == if c != [] || slots[from + n].hi > cidr then c else [RuleIn(slots[from + n], cidr)]
  {
    assert Covering(from, n + 1, from + n);
    assert forall i | Covering(from, n, i) :: Covering(from, n + 1, i);
  }

  /** What the loop has done after n slots. */
  ghost predicate PopDone(m: Mm, e: array<Struct>, flags: array<nat>, shapes: seq<Shape>, slots: seq<Slot>,
                          index: nat, n: nat, cidr: nat, near: Option<Hit>, notify: bool, calls: seq<Nhi>,
                          notifyNow: bool)
    requires AllPacked(slots) && PopReady(slots, index, n, cidr) && index + n <= SLOTS
    reads m.Repr(), e, flags, KidsFoot(shapes)
  {
    && SlotsIn(m, e, flags, shapes, Popped(slots, index, n, cidr, near))
    && calls == (if notify then PopCalls(slots, index, n, cidr) else [])
    && notifyNow == (notify && PopCalls(slots, index, n, cidr) == [])
  }

  lemma {:induction false} PopShorter(slots: seq<Slot>, from: nat, n: nat, k: nat, cidr: nat)
    requires AllPacked(slots) && PopReady(slots, from, n, cidr) && k <= n
    ensures PopReady(slots, from, k, cidr)
  {
  }

  /** One slot of the loop. */
  method PopOne(m: Mm, e: array<Struct>, flags: array<nat>, index: nat, i: nat, cidr: nat, near: nat, nhiNear: Nhi,
                notifyNow0: bool, calls0: seq<Nhi>, ghost notify: bool, ghost hit: Option<Hit>,
                ghost shapes0: seq<Shape>, ghost slots: seq<Slot>)
    returns (notifyNow: bool, calls: seq<Nhi>, ghost shapes: seq<Shape>)
    requires AllPacked(slots) && index + i < SLOTS && PopReady(slots, index, i, cidr)
        && PopReady(slots, index, i + 1, cidr)
    requires PopDone(m, e, flags, shapes0, slots, index, i, cidr, hit, notify, calls0, notifyNow0)
    requires near == LenOf(hit) && (near != 0 ==> nhiNear == NhiOf(hit))
    requires flags !in m.Repr() + KidsFoot(shapes0)
    modifies m.Repr(), e, flags, KidsFoot(shapes0)
    ensures PopDone(m, e, flags, shapes, slots, index, i + 1, cidr, hit, notify, calls, notifyNow)
    ensures fresh(KidsFoot(shapes) - KidsFoot(shapes0))
  {
    hide SlotsIn, Packs, Pop, PopCalls, Popped;
    PoppedNext(slots, index, i, cidr, hit);
    PopCallsNext(slots, index, i, cidr);
    PopNear(slots[index + i], cidr, near, nhiNear, NhiOf(hit));
    ghost var p := Popped(slots, index, i, cidr, hit);
    var skipped, more;
    skipped, more, shapes := PopAt(m, e, flags, index + i, cidr, near, nhiNear, notifyNow0, shapes0, p);
    calls := calls0 + more;
    notifyNow := notifyNow0 && skipped;
  }

  /** Without a next longest prefix the next hop found does not matter. */
  lemma {:induction false} PopNear(sl: Slot, cidr: nat, near: nat, x: Nhi, y: Nhi)
    requires Packed(sl.trie) && CanPop(sl, cidr) && (near != 0 ==> x == y)
    ensures Pop(sl, cidr, near, x) == Pop(sl, cidr, near, y)
  {
  }

  /** The loop of tbm_delete_prefix. */
  method PopAll(m: Mm, e: array<Struct>, flags: array<nat>, index: nat, n: nat, cidr: nat, near: nat, nhiNear: Nhi,
                notify: bool,
                ghost hit: Option<Hit>, ghost shapes0: seq<Shape>, ghost slots: seq<Slot>)
    returns (calls: seq<Nhi>, ghost shapes: seq<Shape>)
    requires AllPacked(slots) && index + n <= SLOTS && PopReady(slots, index, n, cidr)
    requires SlotsIn(m, e, flags, shapes0, slots)
    requires near == LenOf(hit) && (near != 0 ==> nhiNear == NhiOf(hit))
    requires flags !in m.Repr() + KidsFoot(shapes0)
    modifies m.Repr(), e, flags, KidsFoot(shapes0)
    ensures SlotsIn(m, e, flags, shapes, Popped(slots, index, n, cidr, hit))
    ensures calls == if notify then PopCalls(slots, index, n, cidr) else []
    ensures fresh(KidsFoot(shapes) - KidsFoot(shapes0))
  {
    hide *;
    calls, shapes := [], shapes0;
    var notifyNow := notify;
    PopShorter(slots, index, n, 0, cidr);
    PopStarts(m, e, flags, shapes0, slots, index, cidr, hit, notify);
    ghost var own := KidsObjects(shapes);
    for i := 0 to n
      invariant PopReady(slots, index, i, cidr)
      invariant PopDone(m, e, flags, shapes, slots, index, i, cidr, hit, notify, calls, notifyNow)
      invariant own == KidsFoot(shapes) && flags !in own && fresh(own - KidsFoot(shapes0))
    {
      PopShorter(slots, index, n, i + 1, cidr);
      ghost var was := own;
      label before:
      notifyNow, calls, shapes := PopOne(m, e, flags, index, i, cidr, near, nhiNear, notifyNow, calls, notify, hit,
                                         shapes, slots);
      own := KidsObjects(shapes);
      forall o | o in own && o !in KidsFoot(shapes0) ensures fresh(o) {
        if o !in was { assert fresh@before(o); }
      }
    }
    PopEnds(m, e, flags, shapes, slots, index, n, cidr, hit, notify, calls, notifyNow);
  }

  lemma {:induction false} PopStarts(m: Mm, e: array<Struct>, flags: array<nat>, shapes: seq<Shape>, slots: seq<Slot>,
                                     index: nat, cidr: nat, hit: Option<Hit>, notify: bool)
    requires AllPacked(slots) && PopReady(slots, index, 0, cidr) && index <= SLOTS
    requires SlotsIn(m, e, flags, shapes, slots)
    ensures PopDone(m, e, flags, shapes, slots, index, 0, cidr, hit, notify, [], notify)
  {
    hide SlotsIn;
    PoppedNone(slots, index, cidr, hit);
  }

  lemma {:induction false} PopEnds(m: Mm, e: array<Struct>, flags: array<nat>, shapes: seq<Shape>, slots: seq<Slot>,
                                   index: nat, n: nat, cidr: nat, near: Option<Hit>, notify: bool, calls: seq<Nhi>,
                                   notifyNow: bool)
    requires AllPacked(slots) && PopReady(slots, index, n, cidr) && index + n <= SLOTS
    requires PopDone(m, e, flags, shapes, slots, index, n, cidr, near, notify, calls, notifyNow)
    ensures SlotsIn(m, e, flags, shapes, Popped(slots, index, n, cidr, near))
    ensures calls == if notify then PopCalls(slots, index, n, cidr) else []
  {
    hide SlotsIn;
  }
}
