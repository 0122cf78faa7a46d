/** Lookup in the IPv6 forwarding table (tbm/tbmv6.c). */
module TbmV6 {
  import opened Words
  import opened Addresses
  import opened AddressesV6
  import opened Trees
  import opened TreeLaws
  import opened LongestMatch
  import opened Memory
  import opened Shapes
  import opened Walk
  import opened NodeSearch
  import opened Search
  import opened BitmapV6
  import opened FrontTable
  import opened Flags
  import opened TbmV4

  /** Bits of an address below the table. */
  const REST_V6: nat := 115

  /** The bits below the table: what the trie of a slot is about. */
  function Rest6(a: Bits): (r: Bits)
    requires |a| == LENGTH_V6
    ensures |r| == LENGTH_V6
  {
    a[INITIAL_BITS..] + Zeros(INITIAL_BITS)
  }

  /** What the trie of a slot is searched with: the address is shifted right for the index and then the same
      copy is shifted left, so that of all bits only those of the index are left. */
  function Searched(a: Bits): (r: Bits)
    requires |a| == LENGTH_V6
    ensures |r| == LENGTH_V6
  {
    Zeros(REST_V6 - INITIAL_BITS) + a[..INITIAL_BITS] + Zeros(INITIAL_BITS)
  }

  ghost predicate TriesFit(slots: seq<Slot>) {
    forall i | 0 <= i < |slots| && slots[i].child :: Fits(slots[i].trie, REST_V6)
  }

  /** tbmv6_search: the next hop of a slot without a trie; else the longest match in the trie of the slot, not
      of the rest of the address but of Searched. */
  method SearchTable6(fct: seq<Word>, mark: array<LazyTravel>, m: Mm, e: array<Struct>, flags: array<nat>, ip0: Ip6,
                      ghost shapes: seq<Shape>, ghost slots: seq<Slot>)
    returns (r: Nhi)
    requires SlotsIn(m, e, flags, shapes, slots) && TriesFit(slots) && Ready(fct)
    requires mark.Length == LEVEL_V6 && mark !in m.Repr() + KidsFoot(shapes) + {e, flags}
    modifies mark
    ensures Val(Addr6(ip0)[..INITIAL_BITS]) < |slots|
    ensures var sl := slots[Val(Addr6(ip0)[..INITIAL_BITS])];
            Packed(sl.trie)
            && r == if sl.child then NhiOf(Answer(sl.trie, Searched(Addr6(ip0)), REST_V6)) else sl.ptr
  {
    hide *;
    KidsAlloc(shapes);
    ReprAlloc(m);
    var ip := new IpV6(ip0.iphi, ip0.iplo);
    ghost var i := IndexBits(ip0);
    ip.RshiftIpv6(LENGTH_V6 - INITIAL_BITS);
    var index := ip.Value().iplo;
    ip.LshiftIpv6(INITIAL_BITS);
    SlotsAt(m, e, flags, shapes, slots, i);
    if HasChild(flags[index]) {
      SlotTrie(m, e, flags, shapes, slots, i);
      r := DoSearchLazy(fct, mark, Ptr(e, index), ip.Value(), shapes[index], REST_V6);
    } else {
      r := e[index].external;
    }
  }

  lemma {:induction false} SlotTrie(m: Mm, e: array<Struct>, flags: array<nat>, shapes: seq<Shape>,
                                    slots: seq<Slot>, i: nat)
    requires SlotsIn(m, e, flags, shapes, slots) && TriesFit(slots) && i < |slots| && slots[i].child
    ensures i < |shapes| && i < e.Length && At(Ptr(e, i), shapes[i]) && Match(shapes[i], 0)
    ensures Data(shapes[i]) == slots[i].trie && Packed(Data(shapes[i])) && Fits(Data(shapes[i]), REST_V6)
    ensures Foot(shapes[i]) <= KidsFoot(shapes) && REST_V6 <= LENGTH_V6
  {
    hide Fits, Packs, FlagsOf;
    SlotsAt(m, e, flags, shapes, slots, i);
    AllMatchRemove(shapes, i, 0);
  }

  /** The two shifts. */
  lemma {:induction false} IndexBits(ip: Ip6) returns (i: nat)
    ensures INITIAL_BITS == 13 && LENGTH_V6 == 128 && SLOTS == 8192 && |Addr6(ip)| == LENGTH_V6
    ensures i == Val(Addr6(ip)[..INITIAL_BITS]) == RShift(ip, LENGTH_V6 - INITIAL_BITS).iplo < SLOTS
    ensures Addr6(LShift(RShift(ip, LENGTH_V6 - INITIAL_BITS), INITIAL_BITS)) == Searched(Addr6(ip))
  {
    i := Val(Addr6(ip)[..INITIAL_BITS]);
    HeadBits(ip, INITIAL_BITS);
    assert Pow2(INITIAL_BITS) == SLOTS;
    RShiftBits(ip, LENGTH_V6 - INITIAL_BITS);
    LShiftBits(RShift(ip, LENGTH_V6 - INITIAL_BITS), INITIAL_BITS);
  }

  /** The answer for the address is the longest match, whatever is stored below its slot. */
  ghost predicate AlwaysRight(a: Bits)
    requires |a| == LENGTH_V6
  {
    forall t: Tree | Packed(t) && Fits(t, REST_V6) ::
      NhiOf(Answer(t, Searched(a), REST_V6)) == NhiOf(Answer(t, Rest6(a), REST_V6))
  }

  /** The table can be relied on for exactly those addresses whose other bits are the bits of the index behind
      102 zeros. */
  lemma {:induction false} AlwaysRightIff(a: Bits)
    requires |a| == LENGTH_V6
    ensures AlwaysRight(a) <==> a[INITIAL_BITS..] == Zeros(REST_V6 - INITIAL_BITS) + a[..INITIAL_BITS]
  {
    var s, k := Searched(a), a[INITIAL_BITS..];
    assert s[..REST_V6] == Zeros(REST_V6 - INITIAL_BITS) + a[..INITIAL_BITS];
    assert Rest6(a)[..REST_V6] == k;
    if k == s[..REST_V6] {
      assert s == Rest6(a);
    } else {
      OnlyKey(k);
      var t := InsertT(EMPTY, k, 1);
      OnlyAnswer(t, k, s);
      OnlyAnswer(t, k, Rest6(a));
      assert NhiOf(Answer(t, Rest6(a), REST_V6)) == 1;
    }
  }

  /** A trie with one prefix. */
  lemma {:induction false} OnlyKey(k: Bits)
    requires |k| == REST_V6
    ensures Packed(EMPTY) && Packed(InsertT(EMPTY, k, 1)) && Fits(InsertT(EMPTY, k, 1), REST_V6)
    ensures forall j: Bits :: Get(InsertT(EMPTY, k, 1), j) == if j == k then Some(1) else None
  {
    EmptyTree();
    InsertFits(EMPTY, k, 1, REST_V6);
    forall j: Bits ensures Get(InsertT(EMPTY, k, 1), j) == if j == k then Some(1) else None {
      InsertGet(EMPTY, k, 1, j);
    }
  }

  lemma {:induction false} OnlyAnswer(t: Tree, k: Bits, a: Bits)
    requires Packed(t) && |k| == REST_V6 && |a| == LENGTH_V6
    requires forall j: Bits :: Get(t, j) == if j == k then Some(1) else None
    ensures NhiOf(Answer(t, a, REST_V6)) == if a[..REST_V6] == k then 1 else NULL
  {
    LongestSpec(Map(t), a, REST_V6 + 1);
  }
}
