/** The slot tries of the front table in memory: 8192 root structs in one array, one allocator. */
module Slots {
  import opened Words
  import opened Addresses
  import opened Trees
  import opened Memory
  import opened Shapes
  import opened MbNode
  import opened Usage
  import opened Walk
  import opened BitmapV4
  import opened Deletion

  /** The ledger shows the units of all the tries, level by level. */
  ghost predicate Sums(units: seq<int>, ts: seq<Tree>) {
    |units| == MAX_LEVEL && forall d: nat | d < MAX_LEVEL :: units[d] == KidsUnits(ts, d)
  }

  /** Memory holds the tries, apart from each other and from the allocator and the array of roots. */
  ghost predicate Store(m: Mm, e: array<Struct>, shapes: seq<Shape>)
    reads m.Repr(), KidsFoot(shapes)
  {
    && m.Valid() && AllMatch(shapes, 0)
    && m.Repr() !! KidsFoot(shapes) && e !in KidsFoot(shapes) + m.Repr() && KidsFoot(shapes) <= m.used
    && Sums(m.units, Datas(shapes))
  }

  lemma {:induction false} SumsUpdate(u: seq<int>, v: seq<int>, ts: seq<Tree>, i: nat, t: Tree)
    requires Sums(u, ts) && i < |ts| && Follows(u, v, ts[i], t)
    ensures Sums(v, ts[i := t])
  {
    forall d: nat | d < MAX_LEVEL ensures v[d] == KidsUnits(ts[i := t], d) {
      KidsUnitsUpdate(ts, i, t, d);
    }
  }

  /** Picking one trie out of the store. */
  lemma {:induction false} Take(m: Mm, e: array<Struct>, shapes: seq<Shape>, i: nat, others: seq<Shape>)
    requires Store(m, e, shapes) && i < |shapes| <= e.Length && others == RemoveAt(shapes, i)
    requires e[i] == RootOf(shapes[i]) && Packed(Data(shapes[i]))
    ensures Owned(m, Ptr(e, i), shapes[i], 0) && AllMatch(others, 0)
    ensures Foot(shapes[i]) !! KidsFoot(others) && KidsFoot(others) + Foot(shapes[i]) == KidsFoot(shapes)
    ensures m.Repr() !! KidsFoot(others) && e !in KidsFoot(others) + m.Repr() && allocated(KidsFoot(others))
    ensures KidsFoot(others) <= m.used
  {
    hide Packs, Matches, AllMatches, Foot, Data, Sums;
    AllMatchRemove(shapes, i, 0);
    ApartRemove(shapes, i, 0);
    KidsFootRemove(shapes, i);
    KidsAlloc(others);
  }

  /** Putting a changed trie back. */
  lemma {:induction false} Give(m: Mm, e: array<Struct>, shapes: seq<Shape>, i: nat, others: seq<Shape>, s: Shape,
                                u: seq<int>)
    returns (r: seq<Shape>)
    requires i < |shapes| <= e.Length && others == RemoveAt(shapes, i) && Sums(u, Datas(shapes))
    requires Owned(m, Ptr(e, i), s, 0) && AllMatch(others, 0) && Foot(s) !! KidsFoot(others)
    requires m.Repr() !! KidsFoot(others) && e !in KidsFoot(others) + m.Repr() && KidsFoot(others) <= m.used
    requires Follows(u, m.units, Data(shapes[i]), Data(s))
    ensures r == shapes[i := s] && Store(m, e, r) && KidsFoot(r) == KidsFoot(others) + Foot(s)
    ensures e[i] == RootOf(s) && Packed(Data(s))
  {
    r := InsertAt(others, i, s);
    assert r == shapes[i := s];
    AllMatchInsert(others, i, s, 0);
    KidsFootInsert(others, i, s);
    SumsUpdate(u, m.units, Datas(shapes), i, Data(s));
    assert Datas(r) == Datas(shapes)[i := Data(s)];
  }

  /** The set of what a changed store owns. */
  lemma {:induction false} StoreGrows(a: set<object>, b: set<object>, x: set<object>)
    ensures (x + b) - (x + a) <= b - a
  {
  }

  /** bitmap_insert_prefix on the trie of slot i. */
  method InsertAtSlot(m: Mm, e: array<Struct>, i: nat, ip: U32, cidr: nat, nhi: Nhi, ghost shapes: seq<Shape>)
    returns (r: int, ghost shapes': seq<Shape>)
    requires Store(m, e, shapes) && i < |shapes| <= e.Length && e[i] == RootOf(shapes[i]) && Packed(Data(shapes[i]))
    requires cidr <= LENGTH && HostZero(ip, cidr)
    modifies m.Repr(), e, Foot(shapes[i])
    ensures |shapes'| == |shapes| && shapes' == shapes[i := shapes'[i]] && Store(m, e, shapes')
    ensures Data(shapes'[i]) == InsertT(Data(shapes[i]), Key(ip, cidr), nhi)
    ensures e[i] == RootOf(shapes'[i]) && OthersKept(Ptr(e, i), old(e[..]))
    ensures fresh(KidsFoot(shapes') - KidsFoot(shapes))
  {
    hide *;
    ghost var others, s, u := RemoveAt(shapes, i), shapes[i], m.units;
    StoreSums(m, e, shapes);
    Take(m, e, shapes, i, others);
    ghost var s';
    r, s' := InsertPrefix(Ptr(e, i), m, ip, cidr, nhi, s);
    shapes' := Give(m, e, shapes, i, others, s', u);
    StoreGrows(Foot(s), Foot(s'), KidsFoot(others));
  }

  lemma {:induction false} StoreSums(m: Mm, e: array<Struct>, shapes: seq<Shape>)
    requires Store(m, e, shapes)
    ensures Sums(m.units, Datas(shapes))
  {
  }

  /** bitmap_delete_prefix on the trie of slot i. */
  method DeleteAtSlot(m: Mm, e: array<Struct>, i: nat, ip: U32, cidr: nat, notify: bool, ghost shapes: seq<Shape>)
    returns (r: int, calls: seq<Nhi>, ghost shapes': seq<Shape>)
    requires Store(m, e, shapes) && i < |shapes| <= e.Length && e[i] == RootOf(shapes[i]) && Packed(Data(shapes[i]))
    requires cidr <= LENGTH && HostZero(ip, cidr) && Get(Data(shapes[i]), Key(ip, cidr)).Some?
    modifies m.Repr(), e, Foot(shapes[i])
    ensures |shapes'| == |shapes| && shapes' == shapes[i := shapes'[i]] && Store(m, e, shapes')
    ensures Data(shapes'[i]) == DeleteT(Data(shapes[i]), Key(ip, cidr))
    ensures r == if Empty(Data(shapes'[i])) then 1 else 0
    ensures calls == if notify then [Get(Data(shapes[i]), Key(ip, cidr)).value] else []
    ensures e[i] == RootOf(shapes'[i]) && OthersKept(Ptr(e, i), old(e[..]))
    ensures fresh(KidsFoot(shapes') - KidsFoot(shapes))
  {
    hide *;
    ghost var others, s, u := RemoveAt(shapes, i), shapes[i], m.units;
    StoreSums(m, e, shapes);
    Take(m, e, shapes, i, others);
    ghost var s';
    r, calls, s' := DeletePrefix(Ptr(e, i), m, ip, cidr, notify, s);
    shapes' := Give(m, e, shapes, i, others, s', u);
    StoreGrows(Foot(s), Foot(s'), KidsFoot(others));
  }

  lemma {:induction false} RootRule(t: Tree)
    requires Packed(t) && Get(t, []).Some?
    ensures Bit(t.inl, 0) && Get(t, []).value == RuleAt(t, 0)
  {
  }

  lemma {:induction false} PutRuleFollows(u: seq<int>, t: Tree, nhi: Nhi)
    requires Packed(t) && Bit(t.inl, 0)
    ensures Follows(u, u, t, PutRule(t, 0, nhi))
  {
    RankBounds(t.inl, 0);
    var r := PutRule(t, 0, nhi);
    assert t.kids == r.kids && |t.rules| == |r.rules|;
    UnitsFollow(u, t, r);
  }

  lemma {:induction false} UnitsFollow(u: seq<int>, t: Tree, r: Tree)
    requires t.kids == r.kids && |t.rules| == |r.rules|
    ensures Follows(u, u, t, r)
  {
    forall d | 0 <= d < |u| ensures Units(r, d) == Units(t, d) {
      SameUnits(t, r, d);
    }
  }

  lemma {:induction false} SameUnits(t: Tree, r: Tree, d: nat)
    requires t.kids == r.kids && |t.rules| == |r.rules|
    ensures Units(r, d) == Units(t, d)
  {
  }

  /** overlap_nhi on the rule of length 0 of slot i: reported, then replaced. */
  method OverlapAtSlot(m: Mm, e: array<Struct>, i: nat, notify: bool, nhi: Nhi, ghost shapes: seq<Shape>)
    returns (calls: seq<Nhi>, ghost shapes': seq<Shape>)
    requires Store(m, e, shapes) && i < |shapes| <= e.Length && e[i] == RootOf(shapes[i]) && Packed(Data(shapes[i]))
    requires Get(Data(shapes[i]), []).Some?
    modifies Foot(shapes[i])
    ensures |shapes'| == |shapes| && shapes' == shapes[i := shapes'[i]] && Store(m, e, shapes')
    ensures Bit(Data(shapes[i]).inl, 0) && Data(shapes'[i]) == PutRule(Data(shapes[i]), 0, nhi)
    ensures calls == if notify then [Get(Data(shapes[i]), []).value] else []
    ensures e[i] == RootOf(shapes'[i]) && KidsFoot(shapes') == KidsFoot(shapes)
  {
    hide *;
    ghost var others, s, u := RemoveAt(shapes, i), shapes[i], m.units;
    StoreSums(m, e, shapes);
    Take(m, e, shapes, i, others);
    RootRule(Data(s));
    PutRuleFollows(u, Data(s), nhi);
    OwnedNode(m, Ptr(e, i), s);
    FootAlloc(s);
    ReprAlloc(m);
    calls := [];
    if notify {
      var rule := ReadRule(Ptr(e, i), 0, s, 0);
      calls := [rule];
    }
    ghost var s';
    s' := OverwriteRule(m, Ptr(e, i), 0, 0, nhi, s);
    shapes' := Give(m, e, shapes, i, others, s', u);
  }

  lemma {:induction false} OwnedNode(m: Mm, node: Ptr, s: Shape)
    requires Owned(m, node, s, 0)
    ensures At(node, s) && Match(s, 0) && Packed(Data(s)) && RulesArr(s.block) <= Foot(s)
    ensures m.Repr() !! Foot(s) && node.arr !in Foot(s) && Data(s).inl == s.inl
  {
  }
}
