/** How many node units the blocks of a trie take at each depth. */
module Usage {
  import opened Words
  import opened Trees
  import opened MbNode

  /** Units of all blocks owned by nodes at depth d of t. */
  ghost function Units(t: Tree, d: nat): nat
    decreases t, 0
  {
    if d == 0 then NodeUnits(t) else KidsUnits(t.kids, d - 1)
  }

  ghost function KidsUnits(ks: seq<Tree>, d: nat): nat
    decreases ks, 1
  {
    if ks == [] then 0 else Units(ks[0], d) + KidsUnits(ks[1..], d)
  }

  lemma {:induction false} KidsUnitsInsert(ks: seq<Tree>, k: nat, t: Tree, d: nat)
    requires k <= |ks|
    ensures KidsUnits(InsertAt(ks, k, t), d) == KidsUnits(ks, d) + Units(t, d)
    decreases k
  {
    if k > 0 {
      KidsUnitsInsert(ks[1..], k - 1, t, d);
      assert InsertAt(ks, k, t)[1..] == InsertAt(ks[1..], k - 1, t);
    } else {
      assert InsertAt(ks, 0, t)[1..] == ks;
    }
  }

  lemma {:induction false} KidsUnitsRemove(ks: seq<Tree>, k: nat, d: nat)
    requires k < |ks|
    ensures KidsUnits(ks, d) == KidsUnits(RemoveAt(ks, k), d) + Units(ks[k], d)
  {
    KidsUnitsInsert(RemoveAt(ks, k), k, ks[k], d);
    assert InsertAt(RemoveAt(ks, k), k, ks[k]) == ks;
  }

  lemma {:induction false} KidsUnitsUpdate(ks: seq<Tree>, k: nat, t: Tree, d: nat)
    requires k < |ks|
    ensures KidsUnits(ks[k := t], d) == KidsUnits(ks, d) + Units(t, d) - Units(ks[k], d)
  {
    KidsUnitsRemove(ks, k, d);
    KidsUnitsRemove(ks[k := t], k, d);
    assert RemoveAt(ks[k := t], k) == RemoveAt(ks, k);
  }

  lemma {:induction false} EmptyUnits(d: nat)
    ensures Units(EMPTY, d) == 0
  {
  }

  lemma {:induction false} EmptyTreeUnits(t: Tree, d: nat)
    requires Packed(t) && Empty(t)
    ensures Units(t, d) == 0
  {
    assert t.rules == [] && t.kids == [];
  }

  lemma {:induction false} PutChildUnits(t: Tree, p: nat, c: Tree, d: nat)
    requires Packed(t) && Bit(t.ext, p)
    ensures Units(PutChild(t, p, c), d)
         == Units(t, d) + if d == 0 then 0 else Units(c, d - 1) - Units(ChildAt(t, p), d - 1)
  {
    RankBounds(t.ext, p);
    if d > 0 {
      KidsUnitsUpdate(t.kids, CountOnes(t.ext, p), c, d - 1);
    }
  }

  /** The ledger went from u to v while the trie went from t to r. */
  ghost predicate Follows(u: seq<int>, v: seq<int>, t: Tree, r: Tree) {
    Books(u, v, t, r) == true
  }

  ghost predicate Books(u: seq<int>, v: seq<int>, t: Tree, r: Tree) {
    |v| == |u| && forall d | 0 <= d < |u| :: v[d] - u[d] == Units(r, d) - Units(t, d)
  }

  lemma {:induction false} FollowsTwice(u: seq<int>, v: seq<int>, w: seq<int>, t: Tree, r: Tree, q: Tree)
    requires Follows(u, v, t, r) && Follows(v, w, r, q)
    ensures Follows(u, w, t, q)
  {
  }
}
