/** The value of a multi-bit trie: bitmaps, packed rules and packed children of every node,
    and the finite map from prefixes to next hops that it stands for. */
module Trees {
  import opened Words
  import opened Addresses

  /** A next hop is a pointer, that is, a machine word; 0 is NULL. */
  type Nhi = Word
  const NULL: Nhi := 0

  datatype Option<+T> = None | Some(value: T)

  /** rules[k - 1] is the rule at offset -k from child_ptr, kids[k] the child at offset k. */
  datatype Tree = Node(ext: Word, inl: Word, rules: seq<Nhi>, kids: seq<Tree>)

  const EMPTY: Tree := Node(0, 0, [], [])

  predicate Empty(t: Tree) {
    t.inl == 0 && t.ext == 0
  }

  function CountOnes(w: Word, p: nat): int {
    Rank(w, p) - 1
  }

  function Min(a: nat, b: nat): nat {
    if a < b then a else b
  }

  /** The arrays hold one entry per set bit; internal bits stand for lengths 0..5. (Comparing
      with true keeps the verifier from expanding the definition wherever it is asserted.) */
  ghost predicate Packed(t: Tree) {
    Packs(t) == true
  }

  ghost predicate Packs(t: Tree) {
    && |t.rules| == PopCount(t.inl)
    && |t.kids| == PopCount(t.ext)
    && (forall p: nat :: Bit(t.inl, p) ==> p < 63)
    && forall k | 0 <= k < |t.kids| :: Packs(t.kids[k])
  }

  /** No prefix is longer than w. */
  ghost predicate Fits(t: Tree, w: nat) {
    && (forall p: nat :: Bit(t.inl, p) ==> p + 1 < Pow2(Min(w, 5) + 1))
    && (t.ext != 0 ==> w >= STRIDE)
    && forall k | 0 <= k < |t.kids| :: w >= STRIDE && Fits(t.kids[k], w - STRIDE)
  }

  /** No node below the root is empty. */
  ghost predicate Canonical(t: Tree) {
    forall k | 0 <= k < |t.kids| :: !Empty(t.kids[k]) && Canonical(t.kids[k])
  }

  // ----- reading one entry ------------------------------------------------------------

  function RuleAt(t: Tree, p: nat): Nhi
    requires Packed(t) && Bit(t.inl, p)
  {
    RankBounds(t.inl, p);
    t.rules[CountOnes(t.inl, p)]
  }

  function ChildAt(t: Tree, p: nat): (c: Tree)
    requires Packed(t) && Bit(t.ext, p)
    ensures Packed(c) && c < t
  {
    RankBounds(t.ext, p);
    t.kids[CountOnes(t.ext, p)]
  }

  function Get(t: Tree, k: Bits): Option<Nhi>
    requires Packed(t)
    decreases |k|
  {
    if |k| < STRIDE then
      if Bit(t.inl, Pos(k)) then Some(RuleAt(t, Pos(k))) else None
    else
      var p := Val(k[..STRIDE]);
      if Bit(t.ext, p) then Get(ChildAt(t, p), k[STRIDE..]) else None
  }

  ghost function Map(t: Tree): (m: imap<Bits, Nhi>)
    requires Packed(t)
  {
    imap k: Bits | Get(t, k).Some? :: Get(t, k).value
  }

  // ----- writing one entry ------------------------------------------------------------

  function InsertAt<T>(s: seq<T>, k: nat, x: T): seq<T>
    requires k <= |s|
  {
    s[..k] + [x] + s[k..]
  }

  function RemoveAt<T>(s: seq<T>, k: nat): seq<T>
    requires k < |s|
  {
    s[..k] + s[k + 1..]
  }

  function PutRule(t: Tree, p: nat, v: Nhi): Tree
    requires Packed(t) && Bit(t.inl, p)
  {
    RankBounds(t.inl, p);
    t.(rules := t.rules[CountOnes(t.inl, p) := v])
  }

  function AddRule(t: Tree, p: nat, v: Nhi): Tree
    requires Packed(t) && p < 63 && !Bit(t.inl, p)
  {
    RankSet(t.inl, p, p);
    RankBounds(t.inl, p);
    t.(inl := SetBit(t.inl, p), rules := InsertAt(t.rules, CountOnes(SetBit(t.inl, p), p), v))
  }

  function DropRule(t: Tree, p: nat): Tree
    requires Packed(t) && Bit(t.inl, p)
  {
    RankBounds(t.inl, p);
    t.(inl := ClearBit(t.inl, p), rules := RemoveAt(t.rules, CountOnes(t.inl, p)))
  }

  function PutChild(t: Tree, p: nat, c: Tree): Tree
    requires Packed(t) && Bit(t.ext, p)
  {
    RankBounds(t.ext, p);
    t.(kids := t.kids[CountOnes(t.ext, p) := c])
  }

  function AddChild(t: Tree, p: nat, c: Tree): Tree
    requires Packed(t) && p < 64 && !Bit(t.ext, p)
  {
    RankSet(t.ext, p, p);
    RankBounds(t.ext, p);
    t.(ext := SetBit(t.ext, p), kids := InsertAt(t.kids, CountOnes(SetBit(t.ext, p), p), c))
  }

  function DropChild(t: Tree, p: nat): Tree
    requires Packed(t) && p < 64 && Bit(t.ext, p)
  {
    RankBounds(t.ext, p);
    t.(ext := ClearBit(t.ext, p), kids := RemoveAt(t.kids, CountOnes(t.ext, p)))
  }

  // ----- rank preservation: every other entry is still reached through its own bit -----

  lemma {:induction false} PutRuleKeeps(t: Tree, p: nat, v: Nhi, q: nat)
    requires Packed(t) && Bit(t.inl, p)
    ensures Packed(PutRule(t, p, v))
    ensures Bit(t.inl, q) ==> RuleAt(PutRule(t, p, v), q) == if q == p then v else RuleAt(t, q)
  {
    RankBounds(t.inl, p);
    if Bit(t.inl, q) {
      RankBounds(t.inl, q);
      if Rank(t.inl, p) == Rank(t.inl, q) { RankInjective(t.inl, p, q); }
    }
  }

  lemma {:induction false} AddRuleKeeps(t: Tree, p: nat, v: Nhi, q: nat)
    requires Packed(t) && p < 63 && !Bit(t.inl, p)
    ensures Packed(AddRule(t, p, v))
    ensures RuleAt(AddRule(t, p, v), p) == v
    ensures Bit(t.inl, q) ==> RuleAt(AddRule(t, p, v), q) == RuleAt(t, q)
  {
    RankSet(t.inl, p, p);
    RankSet(t.inl, p, q);
    RankBounds(t.inl, p);
    RankBounds(t.inl, q);
    if Bit(t.inl, q) {
      if q < p { RankMono(t.inl, q, p); } else { RankMono(t.inl, p, q); }
    }
  }

  lemma {:induction false} DropRuleKeeps(t: Tree, p: nat, q: nat)
    requires Packed(t) && Bit(t.inl, p)
    ensures Packed(DropRule(t, p))
    ensures q != p && Bit(t.inl, q) ==> RuleAt(DropRule(t, p), q) == RuleAt(t, q)
  {
    RankClear(t.inl, p, q);
    RankBounds(t.inl, p);
    RankBounds(t.inl, q);
    if Bit(t.inl, q) {
      if q < p { RankMono(t.inl, q, p); }
      if p < q { RankMono(t.inl, p, q); }
    }
  }

  lemma {:induction false} PutChildKeeps(t: Tree, p: nat, c: Tree, q: nat)
    requires Packed(t) && Bit(t.ext, p) && Packed(c)
    ensures Packed(PutChild(t, p, c))
    ensures Bit(t.ext, q) ==> ChildAt(PutChild(t, p, c), q) == if q == p then c else ChildAt(t, q)
  {
    RankBounds(t.ext, p);
    if Bit(t.ext, q) {
      RankBounds(t.ext, q);
      if Rank(t.ext, p) == Rank(t.ext, q) { RankInjective(t.ext, p, q); }
    }
  }

  lemma {:induction false} AddChildKeeps(t: Tree, p: nat, c: Tree, q: nat)
    requires Packed(t) && p < 64 && !Bit(t.ext, p) && Packed(c)
    ensures Packed(AddChild(t, p, c))
    ensures ChildAt(AddChild(t, p, c), p) == c
    ensures Bit(t.ext, q) ==> ChildAt(AddChild(t, p, c), q) == ChildAt(t, q)
  {
    RankSet(t.ext, p, p);
    RankSet(t.ext, p, q);
    RankBounds(t.ext, p);
    RankBounds(t.ext, q);
    if Bit(t.ext, q) {
      if q < p { RankMono(t.ext, q, p); } else { RankMono(t.ext, p, q); }
    }
  }

  lemma {:induction false} DropChildKeeps(t: Tree, p: nat, q: nat)
    requires Packed(t) && p < 64 && Bit(t.ext, p)
    ensures Packed(DropChild(t, p))
    ensures q != p && Bit(t.ext, q) ==> ChildAt(DropChild(t, p), q) == ChildAt(t, q)
  {
    RankClear(t.ext, p, q);
    RankBounds(t.ext, p);
    RankBounds(t.ext, q);
    if Bit(t.ext, q) {
      if q < p { RankMono(t.ext, q, p); }
      if p < q { RankMono(t.ext, p, q); }
    }
  }

  // ----- insert and delete ------------------------------------------------------------

  function InsertT(t: Tree, k: Bits, v: Nhi): (r: Tree)
    requires Packed(t)
    ensures Packed(r)
    decreases |k|
  {
    if |k| < STRIDE then
      var p := Pos(k);
      PosSmall(k);
      if Bit(t.inl, p) then
        PutRuleKeeps(t, p, v, p);
        PutRule(t, p, v)
      else
        AddRuleKeeps(t, p, v, p);
        AddRule(t, p, v)
    else
      var p := Val(k[..STRIDE]);
      StrideBound(k);
      var u := WithChild(t, p);
      var c := InsertT(ChildAt(u, p), k[STRIDE..], v);
      PutChildKeeps(u, p, c, p);
      PutChild(u, p, c)
  }

  /** t with an empty child at p if it has none there. */
  function WithChild(t: Tree, p: nat): (u: Tree)
    requires Packed(t) && p < 64
    ensures Packed(u) && Bit(u.ext, p)
  {
    if Bit(t.ext, p) then t
    else
      EmptyTree();
      AddChildKeeps(t, p, EMPTY, p);
      AddChild(t, p, EMPTY)
  }

  lemma {:induction false} EmptyTree()
    ensures Packed(EMPTY) && forall w: nat :: Fits(EMPTY, w)
    ensures forall k: Bits :: Get(EMPTY, k) == None
  {
    forall p: nat ensures !Bit(0, p) { ZeroBit(p); }
  }

  function DeleteT(t: Tree, k: Bits): (r: Tree)
    requires Packed(t) && Get(t, k).Some?
    ensures Packed(r)
    decreases |k|
  {
    if |k| < STRIDE then
      DropRuleKeeps(t, Pos(k), 0);
      DropRule(t, Pos(k))
    else
      var p := Val(k[..STRIDE]);
      WordBit(t.ext, p);
      var c := DeleteT(ChildAt(t, p), k[STRIDE..]);
      if Empty(c) then
        DropChildKeeps(t, p, 0);
        DropChild(t, p)
      else
        PutChildKeeps(t, p, c, 0);
        PutChild(t, p, c)
  }
}
