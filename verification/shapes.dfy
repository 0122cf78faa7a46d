/** The nodes of a trie in memory. A Shape names every block of a trie and records its contents. */
module Shapes {
  import opened Words
  import opened Trees
  import opened Memory

  datatype Shape = Shape(block: Block?, ext: Word, inl: Word, rules: seq<Nhi>, kids: seq<Shape>)

  /** The struct of the root of a shape. */
  function RootOf(s: Shape): Struct {
    Struct(s.ext, s.inl, s.block)
  }

  ghost function RootsOf(ks: seq<Shape>): (r: seq<Struct>)
    ensures |r| == |ks|
  {
    seq(|ks|, k requires 0 <= k < |ks| => RootOf(ks[k]))
  }

  /** The trie a shape holds. */
  ghost function Data(s: Shape): (t: Tree)
    ensures t.ext == s.ext && t.inl == s.inl && t.rules == s.rules && |t.kids| == |s.kids|
    ensures forall k | 0 <= k < |s.kids| :: t.kids[k] == Data(s.kids[k])
    decreases s, 0
  {
    Node(s.ext, s.inl, s.rules, Datas(s.kids))
  }

  ghost function Datas(ks: seq<Shape>): (r: seq<Tree>)
    ensures |r| == |ks|
    ensures forall k | 0 <= k < |ks| :: r[k] == Data(ks[k])
    decreases ks, 1
  {
    seq(|ks|, k requires 0 <= k < |ks| => Data(ks[k]))
  }

  // ----- footprints -------------------------------------------------------------------

  ghost function Foot(s: Shape): set<object>
    decreases s, 0
  {
    BlockFoot(s.block) + KidsFoot(s.kids)
  }

  ghost function KidsFoot(ks: seq<Shape>): set<object>
    decreases ks, 1
  {
    set k, o | 0 <= k < |ks| && o in Foot(ks[k]) :: o
  }

  lemma {:induction false} KidIn(ks: seq<Shape>, k: nat)
    requires k < |ks|
    ensures Foot(ks[k]) <= KidsFoot(ks)
  {
  }

  lemma {:induction false} InKids(ks: seq<Shape>, o: object) returns (k: nat)
    requires o in KidsFoot(ks)
    ensures k < |ks| && o in Foot(ks[k])
  {
    k :| k < |ks| && o in Foot(ks[k]);
  }

  /** The objects of a shape exist. */
  lemma {:induction false} FootAlloc(s: Shape)
    ensures allocated(Foot(s))
    decreases s, 0
  {
    KidsAlloc(s.kids);
  }

  lemma {:induction false} FootObjects(s: Shape) returns (own: set<object>)
    ensures own == Foot(s)
  {
    own := Foot(s);
  }

  lemma {:induction false} KidsObjects(ks: seq<Shape>) returns (own: set<object>)
    ensures own == KidsFoot(ks)
  {
    own := KidsFoot(ks);
  }

  lemma {:induction false} KidsAlloc(ks: seq<Shape>)
    ensures allocated(KidsFoot(ks))
    decreases ks, 1
  {
    forall k | 0 <= k < |ks| ensures allocated(Foot(ks[k])) {
      FootAlloc(ks[k]);
    }
  }

  // ----- memory holds a shape ---------------------------------------------------------

  ghost function RulesOf(b: Block?): seq<Nhi>
    reads if b == null then {} else {b.rules}
  {
    if b == null then [] else b.rules[..]
  }

  ghost function KidsOf(b: Block?): seq<Struct>
    reads if b == null then {} else {b.kids}
  {
    if b == null then [] else b.kids[..]
  }

  /** The size b was allocated with. */
  ghost function UnitsOf(b: Block?): nat {
    if b == null then 0 else b.units
  }

  // Built, Match and AllMatch compare their definitions with true, which keeps the verifier from
  // expanding them wherever they are asserted.

  /** b is a block of this level with these rules and these child structs. */
  ghost predicate Built(b: Block?, rules: seq<Nhi>, kids: seq<Struct>, level: nat)
    reads BlockFoot(b)
  {
    IsBuilt(b, rules, kids, level) == true
  }

  ghost predicate IsBuilt(b: Block?, rules: seq<Nhi>, kids: seq<Struct>, level: nat)
    reads BlockFoot(b)
  {
    && RulesOf(b) == rules && KidsOf(b) == kids
    && (b != null ==>
          && b.level == level && b.up == UpRule(|rules|) && b.units == |kids| + UpRule(|rules|))
  }

  /** Memory holds s, whose root is at depth d. */
  ghost predicate Match(s: Shape, d: nat)
    reads Foot(s)
  {
    Matches(s, d) == true
  }

  ghost predicate Matches(s: Shape, d: nat)
    reads Foot(s)
    decreases s, 0
  {
    && Built(s.block, s.rules, RootsOf(s.kids), d)
    && AllMatches(s.kids, d + 1)
    && BlockFoot(s.block) !! KidsFoot(s.kids)
  }

  /** Disjoint tries, each held in memory at depth d. */
  ghost predicate AllMatch(ks: seq<Shape>, d: nat)
    reads KidsFoot(ks)
  {
    AllMatches(ks, d) == true
  }

  ghost predicate AllMatches(ks: seq<Shape>, d: nat)
    reads KidsFoot(ks)
    decreases ks, 1
  {
    && (forall k | 0 <= k < |ks| :: Matches(ks[k], d))
    && (forall i, j | 0 <= i < j < |ks| :: Foot(ks[i]) !! Foot(ks[j]))
  }

  /** p points to the root struct of s. */
  ghost predicate At(p: Ptr, s: Shape)
    reads p.arr
  {
    p.idx < p.arr.Length && p.arr[p.idx] == RootOf(s)
  }

  // ----- lists of tries ---------------------------------------------------------------

  lemma {:induction false} RemoveIndex<T>(s: seq<T>, k: nat, i: nat)
    requires k < |s| && i < |s| - 1
    ensures RemoveAt(s, k)[i] == s[if i < k then i else i + 1]
  {
  }

  lemma {:induction false} InsertIndex<T>(s: seq<T>, k: nat, x: T, i: nat)
    requires k <= |s| && i <= |s|
    ensures InsertAt(s, k, x)[i] == if i == k then x else s[if i < k then i else i - 1]
  {
  }

  lemma {:induction false} KidsFootInsert(ks: seq<Shape>, k: nat, s: Shape)
    requires k <= |ks|
    ensures KidsFoot(InsertAt(ks, k, s)) == KidsFoot(ks) + Foot(s)
  {
    var r := InsertAt(ks, k, s);
    forall o | o in KidsFoot(ks) + Foot(s) ensures o in KidsFoot(r) {
      if o in Foot(s) {
        assert r[k] == s;
        KidIn(r, k);
      } else {
        var i := InKids(ks, o);
        var j := if i < k then i else i + 1;
        assert r[j] == ks[i];
        KidIn(r, j);
      }
    }
    forall o | o in KidsFoot(r) ensures o in KidsFoot(ks) + Foot(s) {
      var j := InKids(r, o);
      if j != k {
        var i := if j < k then j else j - 1;
        assert r[j] == ks[i];
        KidIn(ks, i);
      }
    }
  }

  lemma {:induction false} AllMatchInsert(ks: seq<Shape>, k: nat, s: Shape, d: nat)
    requires k <= |ks| && AllMatch(ks, d) && Match(s, d) && Foot(s) !! KidsFoot(ks)
    ensures AllMatch(InsertAt(ks, k, s), d)
  {
    var r := InsertAt(ks, k, s);
    forall i | 0 <= i < |r| ensures Matches(r[i], d) {
      InsertIndex(ks, k, s, i);
    }
    forall i, j | 0 <= i < j < |r| ensures Foot(r[i]) !! Foot(r[j]) {
      InsertIndex(ks, k, s, i);
      InsertIndex(ks, k, s, j);
      if i != k { KidIn(ks, if i < k then i else i - 1); }
      if j != k { KidIn(ks, if j < k then j else j - 1); }
    }
  }

  lemma {:induction false} KidsFootRemove(ks: seq<Shape>, k: nat)
    requires k < |ks|
    ensures KidsFoot(RemoveAt(ks, k)) + Foot(ks[k]) == KidsFoot(ks)
  {
    KidsFootInsert(RemoveAt(ks, k), k, ks[k]);
    assert InsertAt(RemoveAt(ks, k), k, ks[k]) == ks;
  }

  lemma {:induction false} ApartRemove(ks: seq<Shape>, k: nat, d: nat)
    requires k < |ks| && AllMatch(ks, d)
    ensures Foot(ks[k]) !! KidsFoot(RemoveAt(ks, k))
  {
    var r := RemoveAt(ks, k);
    forall o | o in KidsFoot(r) ensures o !in Foot(ks[k]) {
      var j := InKids(r, o);
      if j < k {
        assert Foot(ks[j]) !! Foot(ks[k]);
      } else {
        assert r[j] == ks[j + 1];
        assert Foot(ks[k]) !! Foot(ks[j + 1]);
      }
    }
  }

  lemma {:induction false} AllMatchRemove(ks: seq<Shape>, k: nat, d: nat)
    requires k < |ks| && AllMatch(ks, d)
    ensures AllMatch(RemoveAt(ks, k), d)
    ensures Match(ks[k], d)
  {
    var r := RemoveAt(ks, k);
    forall i | 0 <= i < |r| ensures Match(r[i], d) {
      RemoveIndex(ks, k, i);
    }
    forall i, j | 0 <= i < j < |r| ensures Foot(r[i]) !! Foot(r[j]) {
      RemoveIndex(ks, k, i);
      RemoveIndex(ks, k, j);
    }
  }

  const NONE: Shape := Shape(null, 0, 0, [], [])

  lemma {:induction false} EmptyShape(d: nat)
    ensures Match(NONE, d) && Foot(NONE) == {} && RootOf(NONE) == ZERO && Data(NONE) == EMPTY
  {
    assert KidsFoot([]) == {};
    assert RootsOf([]) == [];
  }
}
