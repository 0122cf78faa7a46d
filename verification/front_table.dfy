/** The direct-index table over the first 13 bits, as values (tbm/tbmv4.c): what a slot holds,
    how insert and delete change it, and that it always agrees with the auxiliary trie. */
module FrontTable {
  import opened Words
  import opened Addresses
  import opened Trees
  import opened TreeLaws
  import opened LongestMatch
  import opened Search
  import opened Overlap

  const INITIAL_BITS: nat := 13
  const SLOTS: nat := 8192
  /** Bits of an address below the table. */
  const REST: nat := 19

  /** A slot: `hi` is the length kept in the flags; a slot without a child holds a next hop,
      one with a child the root of a trie for the other 19 bits. */
  datatype Slot = Slot(hi: nat, child: bool, ptr: Nhi, trie: Tree)

  const FREE: Slot := Slot(0, false, NULL, EMPTY)

  /** The longest prefix in aux of length 1 to 13 that covers the slot of p. */
  ghost function Cover(aux: Tree, p: Bits): Option<Hit>
    requires Packed(aux) && |p| == INITIAL_BITS
  {
    Longest(Map(aux), p, INITIAL_BITS + 1)
  }

  /** The slot says of the addresses below p what aux says. */
  ghost predicate SlotOk(aux: Tree, p: Bits, sl: Slot)
    requires Packed(aux) && |p| == INITIAL_BITS
  {
    && Packed(sl.trie) && Fits(sl.trie, REST) && Canonical(sl.trie)
    && sl.hi == LenOf(Cover(aux, p))
    && (if sl.child then
          !Empty(sl.trie) && sl.ptr == NULL && forall k: Bits :: Get(sl.trie, k) == Wanted(aux, p, k)
        else
          && sl.trie == EMPTY && sl.ptr == NhiOf(Cover(aux, p))
          && forall k: Bits | k != [] :: Wanted(aux, p, k) == None)
  }

  /** What the trie of the slot has to hold: the cover as the prefix of length 0, and every longer prefix below p. */
  ghost function Wanted(aux: Tree, p: Bits, k: Bits): Option<Nhi>
    requires Packed(aux) && |p| == INITIAL_BITS
  {
    if k == [] then NhiOpt(Cover(aux, p)) else Get(aux, p + k)
  }

  /** The invariant of the table. */
  ghost predicate Consistent(aux: Tree, slots: seq<Slot>) {
    && Packed(aux) && Fits(aux, LENGTH) && Canonical(aux) && Get(aux, []) == None
    && |slots| == SLOTS
    && forall i: nat | i < SLOTS :: SlotOk(aux, ToBits(i, INITIAL_BITS), slots[i])
  }

  // ----- which slots a prefix covers --------------------------------------------------

  /** ip >> (LENGTH - INITIAL_BITS). */
  function Index(ip: U32): (i: nat)
    ensures i < SLOTS && ToBits(i, INITIAL_BITS) == Addr(ip)[..INITIAL_BITS]
  {
    Pow2Thirty2();
    ShrVal(ip, INITIAL_BITS);
    ToBitsVal(Addr(ip)[..INITIAL_BITS]);
    Shr32(ip, LENGTH - INITIAL_BITS)
  }

  predicate Covers(ip: U32, cidr: nat, i: nat)
    requires cidr <= INITIAL_BITS
  {
    Index(ip) <= i < Index(ip) + Pow2(INITIAL_BITS - cidr)
  }

  lemma {:induction false} ShlStrict(a: nat, b: nat, n: nat)
    requires a < b
    ensures Shl(a, n) + Pow2(n) <= Shl(b, n)
  {
    if n > 0 { ShlStrict(a, b, n - 1); }
  }

  lemma {:induction false} ShlPow2(m: nat, n: nat)
    ensures Shl(Pow2(m), n) == Pow2(m + n)
  {
    if n > 0 { ShlPow2(m, n - 1); }
  }

  lemma {:induction false} SameHigh(x: nat, i: nat, m: nat, n: nat)
    requires x < Pow2(m + n) && i < Pow2(m + n)
    ensures Shr(x, n) < Pow2(m)
    ensures Shr(x, n) == Shr(i, n) <==> ToBits(Shr(x, n), m) == ToBits(Shr(i, n), m)
  {
    ShrBelow(x, m, n);
    ShrBelow(i, m, n);
    ValToBits(Shr(x, n), m);
    ValToBits(Shr(i, n), m);
  }

  /** A block of 2^n numbers that starts at a multiple of 2^n. */
  lemma {:induction false} BlockOf(x: nat, i: nat, m: nat, n: nat)
    requires x < Pow2(m + n) && i < Pow2(m + n) && ToBits(x, n) == Zeros(n)
    ensures x <= i < x + Pow2(n) <==> Shr(x, n) == Shr(i, n)
    ensures x + Pow2(n) <= Pow2(m + n)
  {
    HighLow(x, n);
    HighLow(i, n);
    ValZeros(Zeros(n));
    var a, b := Shr(x, n), Shr(i, n);
    if a < b { ShlStrict(a, b, n); }
    if b < a { ShlStrict(b, a, n); }
    SameHigh(x, i, m, n);
    ShlStrict(a, Pow2(m), n);
    ShlPow2(m, n);
  }

  /** The covered slots are those whose 13 bits start with the prefix. */
  lemma {:induction false} CoversIff(ip: U32, cidr: nat, i: nat)
    requires cidr <= INITIAL_BITS && HostZero(ip, cidr) && i < SLOTS
    ensures Covers(ip, cidr, i) <==> ToBits(i, INITIAL_BITS)[..cidr] == Key(ip, cidr)
    ensures Index(ip) + Pow2(INITIAL_BITS - cidr) <= SLOTS
  {
    var n, x := INITIAL_BITS - cidr, Index(ip);
    Pow2Thirty2();
    ToBitsSplit(x, cidr, n);
    ToBitsSplit(i, cidr, n);
    assert Addr(ip)[..INITIAL_BITS][..cidr] == Key(ip, cidr);
    forall j | 0 <= j < n ensures !ToBits(x, n)[j] {
      assert ToBits(x, INITIAL_BITS)[cidr + j] == Addr(ip)[cidr + j];
    }
    assert ToBits(x, n) == Zeros(n);
    BlockOf(x, i, cidr, n);
    SameHigh(x, i, cidr, n);
  }

  // ----- the longest match of a changed map -------------------------------------------

  lemma {:induction false} LongestPut(m: imap<Bits, Nhi>, a: Bits, n: nat, k: Bits, v: Nhi)
    requires n <= |a| + 1
    ensures Longest(m[k := v], a, n)
         == var r := Longest(m, a, n);
            if |k| < n && a[..|k|] == k && !(r.Some? && r.value.len > |k|) then Some(Hit(|k|, v)) else r
  {
    if n > 0 {
      LongestPut(m, a, n - 1, k, v);
      assert a[..n - 1] == k ==> |k| == n - 1;
    }
  }

  lemma {:induction false} LongestDrop(m: imap<Bits, Nhi>, a: Bits, n: nat, k: Bits)
    requires n <= |a| + 1 && k in m
    ensures Longest(m - {k}, a, n)
         == var r := Longest(m, a, n);
            if |k| < n && a[..|k|] == k && r.Some? && r.value.len == |k| then Longest(m, a, |k|) else r
    ensures |k| < n && a[..|k|] == k ==> Longest(m, a, n).Some? && Longest(m, a, n).value.len >= |k|
  {
    if n > 0 {
      LongestDrop(m, a, n - 1, k);
      if a[..n - 1] == k { LongestWithout(m, a, n - 1, k); }
    }
  }

  /** Dropping a prefix that is too long changes nothing. */
  lemma {:induction false} LongestWithout(m: imap<Bits, Nhi>, a: Bits, n: nat, k: Bits)
    requires n <= |a| + 1 && |k| >= n
    ensures Longest(m - {k}, a, n) == Longest(m, a, n)
  {
    if n > 0 { LongestWithout(m, a, n - 1, k); }
  }

  /** Only the first n - 1 bits of the address matter. */
  lemma {:induction false} LongestPrefix(m: imap<Bits, Nhi>, a: Bits, b: Bits, n: nat)
    requires n <= |a| + 1 && n <= |b| + 1 && (n > 0 ==> a[..n - 1] == b[..n - 1])
    ensures Longest(m, a, n) == Longest(m, b, n)
  {
    if n > 1 {
      assert a[..n - 2] == a[..n - 1][..n - 2] == b[..n - 1][..n - 2] == b[..n - 2];
      LongestPrefix(m, a, b, n - 1);
    }
  }

  // ----- the cover of a slot ----------------------------------------------------------

  /** Without a default route a cover has a length, so 0 in the flags means no cover. */
  lemma {:induction false} CoverLength(aux: Tree, p: Bits)
    requires Packed(aux) && |p| == INITIAL_BITS && Get(aux, []) == None
    ensures Cover(aux, p).Some? <==> LenOf(Cover(aux, p)) > 0
    ensures LenOf(Cover(aux, p)) <= INITIAL_BITS
  {
    LongestPositive(Map(aux), p, INITIAL_BITS + 1);
  }

  lemma {:induction false} LongestPositive(m: imap<Bits, Nhi>, a: Bits, n: nat)
    requires n <= |a| + 1 && [] !in m
    ensures Longest(m, a, n).Some? ==> Longest(m, a, n).value.len > 0
  {
    if n > 0 {
      assert a[..0] == [];
      LongestPositive(m, a, n - 1);
    }
  }

  lemma {:induction false} CoverInsert(aux: Tree, p: Bits, k: Bits, v: Nhi)
    requires Packed(aux) && |p| == INITIAL_BITS && Get(aux, []) == None && k != []
    ensures Cover(InsertT(aux, k, v), p)
         == if |k| <= INITIAL_BITS && p[..|k|] == k
             && LenOf(Cover(aux, p)) <= |k| then Some(Hit(|k|, v)) else Cover(aux, p)
  {
    InsertIsUpdate(aux, k, v);
    LongestPut(Map(aux), p, INITIAL_BITS + 1, k, v);
  }

  /** After a delete the covered slots without a longer prefix fall back to the next longest. */
  lemma {:induction false} CoverDelete(aux: Tree, p: Bits, k: Bits)
    requires Packed(aux) && |p| == INITIAL_BITS && Get(aux, k).Some? && k != []
    ensures |k| <= INITIAL_BITS && p[..|k|] == k ==> LenOf(Cover(aux, p)) >= |k|
    ensures Cover(DeleteT(aux, k), p)
         == if |k| <= INITIAL_BITS && p[..|k|] == k && LenOf(Cover(aux, p)) <= |k| then Longest(Map(aux), p, |k|)
            else Cover(aux, p)
  {
    DeleteIsRemoval(aux, k);
    LongestDrop(Map(aux), p, INITIAL_BITS + 1, k);
  }

  // ----- one slot ---------------------------------------------------------------------

  /** A prefix of length cidr is pushed into a slot it covers, unless a longer one is there. */
  function Push(sl: Slot, cidr: nat, nhi: Nhi): Slot
    requires Packed(sl.trie)
  {
    if sl.hi > cidr then sl
    else if sl.child then sl.(hi := cidr, trie := InsertT(sl.trie, [], nhi))
    else sl.(hi := cidr, ptr := nhi)
  }

  /** A prefix longer than 13 goes into the trie of its slot, after the pushed prefix if the slot has none. */
  function AddBelow(sl: Slot, k: Bits, nhi: Nhi): Slot
    requires Packed(sl.trie)
  {
    if sl.child then sl.(trie := InsertT(sl.trie, k, nhi))
    else
      var t := if sl.hi > 0 then InsertT(sl.trie, [], sl.ptr) else sl.trie;
      Slot(sl.hi, true, NULL, InsertT(t, k, nhi))
  }

  /** A slot that changes by a delete has a rule to lose. */
  predicate CanPop(sl: Slot, cidr: nat)
    requires Packed(sl.trie)
  {
    sl.hi <= cidr && sl.child ==> Get(sl.trie, []).Some?
  }

  /** A prefix of length cidr leaves a slot it covers; `near` is the length of the next longest, or 0. */
  function Pop(sl: Slot, cidr: nat, near: nat, nhiNear: Nhi): Slot
    requires Packed(sl.trie) && CanPop(sl, cidr)
  {
    if sl.hi > cidr then sl
    else if sl.child then
      if near == 0 then
        var t := DeleteT(sl.trie, []);
        if Empty(t) then Slot(0, false, NULL, t) else sl.(hi := 0, trie := t)
      else sl.(hi := near, trie := PutRule(sl.trie, 0, nhiNear))
    else if near == 0 then Slot(0, false, NULL, sl.trie)
    else Slot(near, false, nhiNear, sl.trie)
  }

  /** A prefix longer than 13 leaves the trie of its slot. */
  function RemoveBelow(sl: Slot, k: Bits, near: nat, nhiNear: Nhi): Slot
    requires Packed(sl.trie) && (sl.child ==> Get(sl.trie, k).Some?)
  {
    if sl.child then
      var t := DeleteT(sl.trie, k);
      if !Empty(t) then sl.(trie := t)
      else if near == 0 then Slot(0, false, NULL, t)
      else Slot(near, false, nhiNear, t)
    else sl
  }

  lemma {:induction false} EmptyIs(t: Tree)
    requires Packed(t) && Empty(t)
    ensures t == EMPTY
  {
  }

  lemma {:induction false} EmptySlot()
    ensures Packed(EMPTY) && Fits(EMPTY, REST) && Canonical(EMPTY)
  {
    EmptyTree();
  }

  lemma {:induction false} Deep(p: Bits, k: Bits, j: Bits)
    requires |p| == INITIAL_BITS
    ensures k != [] ==> |p + k| > INITIAL_BITS
    ensures p + j == p + k <==> j == k
    ensures |j| > INITIAL_BITS && j[..INITIAL_BITS] == p ==> p + j[INITIAL_BITS..] == j && j[INITIAL_BITS..] != []
  {
    assert (p + k)[INITIAL_BITS..] == k && (p + j)[INITIAL_BITS..] == j;
  }

  /** A short prefix that does not cover the slot leaves it alone. */
  lemma {:induction false} SlotInsertShort(aux: Tree, p: Bits, sl: Slot, k: Bits, v: Nhi)
    requires Packed(aux) && |p| == INITIAL_BITS && Get(aux, []) == None && SlotOk(aux, p, sl)
    requires 0 < |k| <= INITIAL_BITS
    ensures SlotOk(InsertT(aux, k, v), p, if p[..|k|] == k then Push(sl, |k|, v) else sl)
  {
    var aux' := InsertT(aux, k, v);
    CoverInsert(aux, p, k, v);
    CoverLength(aux, p);
    forall j: Bits | j != [] ensures Wanted(aux', p, j) == Wanted(aux, p, j) {
      InsertGet(aux, k, v, p + j);
    }
    if p[..|k|] == k && sl.hi <= |k| && sl.child {
      var t := InsertT(sl.trie, [], v);
      InsertNonEmpty(sl.trie, [], v);
      InsertFits(sl.trie, [], v, REST);
      InsertCanonical(sl.trie, [], v);
      forall j: Bits ensures Get(t, j) == Wanted(aux', p, j) {
        InsertGet(sl.trie, [], v, j);
        if j != [] { assert Get(sl.trie, j) == Wanted(aux, p, j); }
      }
    }
    if !(p[..|k|] == k && sl.hi <= |k|) {
      assert Wanted(aux', p, []) == Wanted(aux, p, []);
    }
  }

  lemma {:induction false} SlotInsertLong(aux: Tree, p: Bits, sl: Slot, k: Bits, v: Nhi)
    requires Packed(aux) && |p| == INITIAL_BITS && Get(aux, []) == None && SlotOk(aux, p, sl)
    requires INITIAL_BITS < |k| <= LENGTH
    ensures SlotOk(InsertT(aux, k, v), p,
                   if k[..INITIAL_BITS] == p then AddBelow(sl, k[INITIAL_BITS..], v) else sl)
  {
    var aux' := InsertT(aux, k, v);
    CoverInsert(aux, p, k, v);
    CoverLength(aux, p);
    if k[..INITIAL_BITS] == p {
      var k' := k[INITIAL_BITS..];
      var t := if !sl.child && sl.hi > 0 then InsertT(sl.trie, [], sl.ptr) else sl.trie;
      if !sl.child && sl.hi > 0 {
        InsertFits(sl.trie, [], sl.ptr, REST);
        InsertCanonical(sl.trie, [], sl.ptr);
      }
      forall j: Bits ensures Get(t, j) == Wanted(aux, p, j) {
        EmptyTree();
        if !sl.child && sl.hi > 0 { InsertGet(sl.trie, [], sl.ptr, j); }
      }
      InsertNonEmpty(t, k', v);
      InsertFits(t, k', v, REST);
      InsertCanonical(t, k', v);
      forall j: Bits ensures Get(InsertT(t, k', v), j) == Wanted(aux', p, j) {
        InsertGet(t, k', v, j);
        InsertGet(aux, k, v, p + j);
        Deep(p, k', j);
        Deep(p, k', k);
        assert Get(t, j) == Wanted(aux, p, j);
      }
    } else {
      forall j: Bits ensures Wanted(aux', p, j) == Wanted(aux, p, j) {
        InsertGet(aux, k, v, p + j);
        assert (p + j)[..INITIAL_BITS] == p;
      }
    }
  }

  lemma {:induction false} SlotDeleteShort(aux: Tree, p: Bits, sl: Slot, k: Bits, near: Option<Hit>)
    requires Packed(aux) && |p| == INITIAL_BITS && Get(aux, []) == None && SlotOk(aux, p, sl)
    requires 0 < |k| <= INITIAL_BITS && Get(aux, k).Some?
    requires p[..|k|] == k ==> near == Longest(Map(aux), p, |k|)
    ensures p[..|k|] == k ==> sl.hi >= |k|
    ensures p[..|k|] == k && sl.hi <= |k| && sl.child ==> Get(sl.trie, []).Some?
    ensures SlotOk(DeleteT(aux, k), p, if p[..|k|] == k then Pop(sl, |k|, LenOf(near), NhiOf(near)) else sl)
  {
    var aux' := DeleteT(aux, k);
    CoverDelete(aux, p, k);
    CoverLength(aux, p);
    DeleteGet(aux, k, []);
    CoverLength(aux', p);
    forall j: Bits | j != [] ensures Wanted(aux', p, j) == Wanted(aux, p, j) {
      DeleteGet(aux, k, p + j);
    }
    if p[..|k|] == k && sl.hi <= |k| && sl.child {
      assert Get(sl.trie, []) == Wanted(aux, p, []);
      var t := PopTrie(sl.trie, near);
      forall j: Bits ensures Get(t, j) == Wanted(aux', p, j) {
        if j != [] { assert Get(sl.trie, j) == Wanted(aux, p, j); }
      }
      if near.None? && Empty(t) {
        EmptyIs(t);
        forall j: Bits ensures Get(t, j) == None { EmptyGet(t, j); }
      }
    }
    if !(p[..|k|] == k && sl.hi <= |k|) {
      assert Wanted(aux', p, []) == Wanted(aux, p, []);
    }
  }

  /** What a delete makes of the rule of length 0 of a slot trie. */
  lemma {:induction false} PopTrie(t: Tree, near: Option<Hit>) returns (r: Tree)
    requires Packed(t) && Fits(t, REST) && Canonical(t) && Get(t, []).Some?
    ensures r == (if near.None? then DeleteT(t, []) else PutRule(t, 0, near.value.nhi))
    ensures Packed(r) && Fits(r, REST) && Canonical(r) && (near.Some? ==> !Empty(r))
    ensures forall j: Bits :: Get(r, j) == if j == [] then NhiOpt(near) else Get(t, j)
  {
    if near.None? {
      r := DeleteT(t, []);
      DeleteFits(t, [], REST);
      DeleteCanonical(t, []);
      forall j: Bits ensures Get(r, j) == if j == [] then NhiOpt(near) else Get(t, j) { DeleteGet(t, [], j); }
    } else {
      r := PutRule(t, 0, near.value.nhi);
      assert r == InsertT(t, [], near.value.nhi);
      InsertNonEmpty(t, [], near.value.nhi);
      InsertFits(t, [], near.value.nhi, REST);
      InsertCanonical(t, [], near.value.nhi);
      forall j: Bits ensures Get(r, j) == if j == [] then NhiOpt(near) else Get(t, j) {
        InsertGet(t, [], near.value.nhi, j);
      }
    }
  }

  /** A stored long prefix is in the trie of its slot. */
  lemma {:induction false} LongHere(aux: Tree, p: Bits, sl: Slot, k: Bits)
    requires Packed(aux) && |p| == INITIAL_BITS && SlotOk(aux, p, sl)
    requires INITIAL_BITS < |k| && Get(aux, k).Some? && k[..INITIAL_BITS] == p
    ensures sl.child && Packed(sl.trie) && Get(sl.trie, k[INITIAL_BITS..]) == Get(aux, k)
  {
    Deep(p, k, k);
    assert Wanted(aux, p, k[INITIAL_BITS..]) == Get(aux, k);
  }

  lemma {:induction false} RemovedBelow(aux: Tree, p: Bits, sl: Slot, k: Bits) returns (t: Tree)
    requires Packed(aux) && |p| == INITIAL_BITS && SlotOk(aux, p, sl)
    requires INITIAL_BITS < |k| <= LENGTH && Get(aux, k).Some? && k[..INITIAL_BITS] == p
    requires Cover(DeleteT(aux, k), p) == Cover(aux, p)
    ensures sl.child && Get(sl.trie, k[INITIAL_BITS..]).Some? && t == DeleteT(sl.trie, k[INITIAL_BITS..])
    ensures Packed(t) && Fits(t, REST) && Canonical(t)
    ensures forall j: Bits :: Get(t, j) == Wanted(DeleteT(aux, k), p, j)
  {
    var k', aux' := k[INITIAL_BITS..], DeleteT(aux, k);
    LongHere(aux, p, sl, k);
    t := DeleteT(sl.trie, k');
    DeleteFits(sl.trie, k', REST);
    DeleteCanonical(sl.trie, k');
    forall j: Bits ensures Get(t, j) == Wanted(aux', p, j) {
      DeleteGet(sl.trie, k', j);
      DeleteGet(aux, k, p + j);
      Deep(p, k', j);
      Deep(p, k', k);
      assert Get(sl.trie, j) == Wanted(aux, p, j);
    }
  }

  /** When the last long prefix leaves a slot, no pushed prefix covered it, and the search for one finds none. */
  lemma {:induction false} SlotDeleteLong(aux: Tree, p: Bits, sl: Slot, k: Bits, near: Option<Hit>)
    requires Packed(aux) && |p| == INITIAL_BITS && Get(aux, []) == None && SlotOk(aux, p, sl)
    requires INITIAL_BITS < |k| <= LENGTH && Get(aux, k).Some?
    requires k[..INITIAL_BITS] == p ==> near == Longest(Map(aux), p, INITIAL_BITS)
    ensures k[..INITIAL_BITS] == p ==> sl.child && Get(sl.trie, k[INITIAL_BITS..]).Some?
    ensures k[..INITIAL_BITS] == p && Empty(DeleteT(sl.trie, k[INITIAL_BITS..])) ==> near == None
    ensures SlotOk(DeleteT(aux, k), p,
                   if k[..INITIAL_BITS] == p then RemoveBelow(sl, k[INITIAL_BITS..], LenOf(near),
                                                              NhiOf(near)) else sl)
  {
    var aux' := DeleteT(aux, k);
    CoverDelete(aux, p, k);
    CoverLength(aux, p);
    if k[..INITIAL_BITS] == p {
      var t := RemovedBelow(aux, p, sl, k);
      if Empty(t) {
        EmptyIs(t);
        EmptyTree();
        assert Get(t, []) == Wanted(aux', p, []);
        assert Longest(Map(aux), p, INITIAL_BITS + 1) == None;
      }
    } else {
      forall j: Bits ensures Wanted(aux', p, j) == Wanted(aux, p, j) {
        DeleteGet(aux, k, p + j);
        assert (p + j)[..INITIAL_BITS] == p;
      }
    }
  }

  // ----- the whole table --------------------------------------------------------------

  predicate Covering(from: nat, n: nat, i: nat) {
    from <= i < from + n
  }

  ghost predicate AllPacked(slots: seq<Slot>) {
    |slots| == SLOTS && forall i | 0 <= i < SLOTS :: Packed(slots[i].trie)
  }

  /** A prefix has been pushed into the n slots from `from` on. */
  ghost function Pushed(slots: seq<Slot>, from: nat, n: nat, cidr: nat, nhi: Nhi): (r: seq<Slot>)
    requires AllPacked(slots)
    ensures |r| == SLOTS
  {
    seq(SLOTS, i requires 0 <= i < SLOTS => if Covering(from, n, i) then Push(slots[i], cidr, nhi) else slots[i])
  }

  /** Every slot of the range can lose its prefix. */
  ghost predicate PopReady(slots: seq<Slot>, from: nat, n: nat, cidr: nat)
    requires AllPacked(slots)
  {
    forall i | 0 <= i < SLOTS && Covering(from, n, i) :: CanPop(slots[i], cidr)
  }

  /** A prefix has been taken out of the n slots from `from` on. */
  ghost function Popped(slots: seq<Slot>, from: nat, n: nat, cidr: nat, near: Option<Hit>): (r: seq<Slot>)
    requires AllPacked(slots) && PopReady(slots, from, n, cidr)
    ensures |r| == SLOTS
  {
    seq(SLOTS, i requires 0 <= i < SLOTS =>
      if Covering(from, n, i) then Pop(slots[i], cidr, LenOf(near), NhiOf(near)) else slots[i])
  }

  /** The part of a long prefix below the table. */
  function LowKey(ip: U32, cidr: nat): Bits
    requires INITIAL_BITS < cidr <= LENGTH
  {
    Key(Shl32(ip, INITIAL_BITS), cidr - INITIAL_BITS)
  }

  lemma {:induction false} LowKeyIs(ip: U32, cidr: nat)
    requires INITIAL_BITS < cidr <= LENGTH
    ensures LowKey(ip, cidr) == Key(ip, cidr)[INITIAL_BITS..]
    ensures Key(ip, cidr)[..INITIAL_BITS] == Addr(ip)[..INITIAL_BITS]
    ensures HostZero(ip, cidr) ==> HostZero(Shl32(ip, INITIAL_BITS), cidr - INITIAL_BITS)
  {
    ShlAddr(ip, INITIAL_BITS);
    if HostZero(ip, cidr) {
      forall j | cidr - INITIAL_BITS <= j < LENGTH ensures !Addr(Shl32(ip, INITIAL_BITS))[j] {
        if j < LENGTH - INITIAL_BITS { assert Addr(Shl32(ip, INITIAL_BITS))[j] == Addr(ip)[j + INITIAL_BITS]; }
      }
    }
  }

  /** tbm_insert_prefix on the slots. */
  ghost function TableInsert(slots: seq<Slot>, ip: U32, cidr: nat, nhi: Nhi): seq<Slot>
    requires AllPacked(slots) && 0 < cidr <= LENGTH
  {
    if cidr <= INITIAL_BITS then Pushed(slots, Index(ip), Pow2(INITIAL_BITS - cidr), cidr, nhi)
    else slots[Index(ip) := AddBelow(slots[Index(ip)], LowKey(ip, cidr), nhi)]
  }

  /** What overlap detection finds for a prefix that is deleted. */
  ghost function Near(aux: Tree, ip: U32, cidr: nat): Option<Hit>
    requires Packed(aux) && cidr <= LENGTH
  {
    Longest(Map(aux), Addr(ip), Min(cidr, INITIAL_BITS))
  }

  lemma {:induction false} NearIs(aux: Tree, ip: U32, cidr: nat, p: Bits)
    requires Packed(aux) && 0 < cidr <= LENGTH && |p| == INITIAL_BITS
    requires p[..Min(cidr, INITIAL_BITS)] == Addr(ip)[..Min(cidr, INITIAL_BITS)]
    ensures Near(aux, ip, cidr) == Longest(Map(aux), p, Min(cidr, INITIAL_BITS))
  {
    var n := Min(cidr, INITIAL_BITS);
    assert p[..n - 1] == p[..n][..n - 1] == Addr(ip)[..n][..n - 1] == Addr(ip)[..n - 1];
    LongestPrefix(Map(aux), Addr(ip), p, n);
  }

  /** Delete repair: a slot that a deleted short prefix covers, and that holds no longer one, has the
      length of exactly this prefix, and its rule is there. */
  lemma {:induction false} DeleteReady(aux: Tree, slots: seq<Slot>, ip: U32, cidr: nat, i: nat)
    requires Consistent(aux, slots) && 0 < cidr <= INITIAL_BITS && HostZero(ip, cidr) && Get(aux, Key(ip, cidr)).Some?
    requires i < SLOTS && Covers(ip, cidr, i)
    ensures slots[i].hi >= cidr
    ensures Packed(slots[i].trie) && CanPop(slots[i], cidr)
    ensures slots[i].hi <= cidr ==>
              (if slots[i].child then Get(slots[i].trie, []) else Some(slots[i].ptr)) == Get(aux, Key(ip, cidr))
  {
    var p := ToBits(i, INITIAL_BITS);
    CoversIff(ip, cidr, i);
    assert SlotOk(aux, p, slots[i]);
    SlotDeleteShort(aux, p, slots[i], Key(ip, cidr), Longest(Map(aux), p, cidr));
    CoverLength(aux, p);
    LongestSpec(Map(aux), p, INITIAL_BITS + 1);
    if slots[i].child { assert Get(slots[i].trie, []) == Wanted(aux, p, []); }
  }

  /** A deleted long prefix is in the trie of its slot. */
  lemma {:induction false} DeleteReadyLong(aux: Tree, slots: seq<Slot>, ip: U32, cidr: nat)
    requires Consistent(aux, slots) && INITIAL_BITS < cidr <= LENGTH && Get(aux, Key(ip, cidr)).Some?
    ensures var sl := slots[Index(ip)];
            sl.child && Packed(sl.trie) && Get(sl.trie, LowKey(ip, cidr)) == Get(aux, Key(ip, cidr))
    ensures Empty(DeleteT(slots[Index(ip)].trie, LowKey(ip, cidr))) ==> Near(aux, ip, cidr) == None
  {
    var p := ToBits(Index(ip), INITIAL_BITS);
    hide SlotOk, Get, Longest, DeleteT, Packs, Fits, Canonical;
    LowKeyIs(ip, cidr);
    NearIs(aux, ip, cidr, p);
    assert SlotOk(aux, p, slots[Index(ip)]);
    LongHere(aux, p, slots[Index(ip)], Key(ip, cidr));
    SlotDeleteLong(aux, p, slots[Index(ip)], Key(ip, cidr), Near(aux, ip, cidr));
  }

  lemma {:induction false} ConsistentPacked(aux: Tree, slots: seq<Slot>)
    requires Consistent(aux, slots)
    ensures AllPacked(slots)
  {
    forall i: nat | i < SLOTS ensures Packed(slots[i].trie) {
      assert SlotOk(aux, ToBits(i, INITIAL_BITS), slots[i]);
    }
  }

  lemma {:induction false} DeletePopReady(aux: Tree, slots: seq<Slot>, ip: U32, cidr: nat)
    requires Consistent(aux, slots) && 0 < cidr <= INITIAL_BITS && HostZero(ip, cidr) && Get(aux, Key(ip, cidr)).Some?
    ensures AllPacked(slots) && PopReady(slots, Index(ip), Pow2(INITIAL_BITS - cidr), cidr)
  {
    ConsistentPacked(aux, slots);
    forall i | 0 <= i < SLOTS && Covering(Index(ip), Pow2(INITIAL_BITS - cidr), i) ensures CanPop(slots[i], cidr) {
      DeleteReady(aux, slots, ip, cidr, i);
    }
  }

  /** tbm_delete_prefix on the slots. */
  ghost function TableDelete(aux: Tree, slots: seq<Slot>, ip: U32, cidr: nat): seq<Slot>
    requires Consistent(aux, slots) && 0 < cidr <= LENGTH && HostZero(ip, cidr) && Get(aux, Key(ip, cidr)).Some?
  {
    ConsistentPacked(aux, slots);
    var near := Near(aux, ip, cidr);
    if cidr <= INITIAL_BITS then
      var n := Pow2(INITIAL_BITS - cidr);
      DeletePopReady(aux, slots, ip, cidr);
      Popped(slots, Index(ip), n, cidr, near)
    else
      DeleteReadyLong(aux, slots, ip, cidr);
      slots[Index(ip) := RemoveBelow(slots[Index(ip)], LowKey(ip, cidr), LenOf(near), NhiOf(near))]
  }

  lemma {:induction false} SlotPlace(i: nat, j: nat)
    requires i < SLOTS && j < SLOTS && ToBits(i, INITIAL_BITS) == ToBits(j, INITIAL_BITS)
    ensures i == j
  {
    Pow2Thirty2();
    ValToBits(i, INITIAL_BITS);
    ValToBits(j, INITIAL_BITS);
  }

  /** Every insert keeps the table in agreement with the auxiliary trie. */
  lemma {:induction false} TableInsertKeeps(aux: Tree, slots: seq<Slot>, ip: U32, cidr: nat, nhi: Nhi)
    requires Consistent(aux, slots) && 0 < cidr <= LENGTH && HostZero(ip, cidr)
    ensures AllPacked(slots) && Consistent(InsertT(aux, Key(ip, cidr), nhi), TableInsert(slots, ip, cidr, nhi))
  {
    ConsistentPacked(aux, slots);
    var k := Key(ip, cidr);
    var aux', slots' := InsertT(aux, k, nhi), TableInsert(slots, ip, cidr, nhi);
    InsertFits(aux, k, nhi, LENGTH);
    InsertCanonical(aux, k, nhi);
    InsertGet(aux, k, nhi, []);
    forall i: nat | i < SLOTS ensures SlotOk(aux', ToBits(i, INITIAL_BITS), slots'[i]) {
      var p := ToBits(i, INITIAL_BITS);
      assert SlotOk(aux, p, slots[i]);
      if cidr <= INITIAL_BITS {
        CoversIff(ip, cidr, i);
        SlotInsertShort(aux, p, slots[i], k, nhi);
      } else {
        LowKeyIs(ip, cidr);
        SlotInsertLong(aux, p, slots[i], k, nhi);
        if k[..INITIAL_BITS] == p { SlotPlace(Index(ip), i); }
      }
    }
  }

  /** Every delete of a stored prefix keeps the table in agreement with the auxiliary trie. */
  lemma {:induction false} TableDeleteKeeps(aux: Tree, slots: seq<Slot>, ip: U32, cidr: nat)
    requires Consistent(aux, slots) && 0 < cidr <= LENGTH && HostZero(ip, cidr) && Get(aux, Key(ip, cidr)).Some?
    ensures Consistent(DeleteT(aux, Key(ip, cidr)), TableDelete(aux, slots, ip, cidr))
  {
    ConsistentPacked(aux, slots);
    var k, near := Key(ip, cidr), Near(aux, ip, cidr);
    var aux', slots' := DeleteT(aux, k), TableDelete(aux, slots, ip, cidr);
    DeleteFits(aux, k, LENGTH);
    DeleteCanonical(aux, k);
    DeleteGet(aux, k, []);
    forall i: nat | i < SLOTS ensures SlotOk(aux', ToBits(i, INITIAL_BITS), slots'[i]) {
      var p := ToBits(i, INITIAL_BITS);
      assert SlotOk(aux, p, slots[i]);
      if cidr <= INITIAL_BITS {
        CoversIff(ip, cidr, i);
        if p[..cidr] == k { NearIs(aux, ip, cidr, p); }
        SlotDeleteShort(aux, p, slots[i], k, near);
      } else {
        LowKeyIs(ip, cidr);
        if k[..INITIAL_BITS] == p {
          NearIs(aux, ip, cidr, p);
          SlotPlace(Index(ip), i);
        }
        SlotDeleteLong(aux, p, slots[i], k, near);
      }
    }
  }

  // ----- pointer or trie --------------------------------------------------------------

  /** The prefix k covers the slot of p or lies below it. */
  ghost predicate Touches(k: Bits, p: Bits)
    requires |p| == INITIAL_BITS
  {
    if |k| <= INITIAL_BITS then p[..|k|] == k else k[..INITIAL_BITS] == p
  }

  /** Some stored prefix covers the slot of p or lies below it. */
  ghost predicate Touched(m: imap<Bits, Nhi>, p: Bits)
    requires |p| == INITIAL_BITS
  {
    exists k: Bits :: k in m && Touches(k, p)
  }

  lemma {:induction false} TouchedIff(aux: Tree, p: Bits)
    requires Packed(aux) && |p| == INITIAL_BITS
    ensures Touched(Map(aux), p) <==> exists k: Bits :: Wanted(aux, p, k).Some?
  {
    LongestSpec(Map(aux), p, INITIAL_BITS + 1);
    if Touched(Map(aux), p) {
      var k: Bits :| k in Map(aux) && Touches(k, p);
      if |k| <= INITIAL_BITS {
        assert Wanted(aux, p, []).Some?;
      } else {
        assert p + k[INITIAL_BITS..] == k;
        assert Wanted(aux, p, k[INITIAL_BITS..]).Some?;
      }
    }
    if k: Bits :| Wanted(aux, p, k).Some? {
      if k == [] {
        var h := Cover(aux, p).value;
        assert p[..h.len] in Map(aux) && Touches(p[..h.len], p);
      } else {
        assert p + k in Map(aux) && (p + k)[..INITIAL_BITS] == p;
        assert Touches(p + k, p);
      }
    }
  }

  /** A slot with a trie is touched; a slot that is not touched is free. */
  lemma {:induction false} SlotTouched(aux: Tree, p: Bits, sl: Slot)
    requires Packed(aux) && |p| == INITIAL_BITS && Get(aux, []) == None && SlotOk(aux, p, sl)
    ensures sl.child ==> Touched(Map(aux), p) && !Empty(sl.trie)
    ensures !sl.child && sl.hi == 0 ==> !Touched(Map(aux), p)
  {
    TouchedIff(aux, p);
    CoverLength(aux, p);
    if sl.child {
      var k := HasKey(sl.trie);
      assert Wanted(aux, p, k).Some?;
    }
  }

  /** An insert gives exactly the slot of a long prefix a trie; no insert takes one away. */
  lemma {:induction false} MarkInsert(aux: Tree, slots: seq<Slot>, ip: U32, cidr: nat, nhi: Nhi, i: nat)
    requires Consistent(aux, slots) && 0 < cidr <= LENGTH && i < SLOTS
    ensures AllPacked(slots) && |TableInsert(slots, ip, cidr, nhi)| == SLOTS
    ensures TableInsert(slots, ip, cidr, nhi)[i].child <==>
              slots[i].child || (cidr > INITIAL_BITS && Key(ip, cidr)[..INITIAL_BITS] == ToBits(i, INITIAL_BITS))
  {
    ConsistentPacked(aux, slots);
    if cidr > INITIAL_BITS {
      LowKeyIs(ip, cidr);
      if Key(ip, cidr)[..INITIAL_BITS] == ToBits(i, INITIAL_BITS) { SlotPlace(Index(ip), i); }
    }
  }

  /** A delete takes the trie away exactly from the slots that no stored prefix touches any more. */
  lemma {:induction false} MarkDelete(aux: Tree, slots: seq<Slot>, ip: U32, cidr: nat, i: nat)
    requires Consistent(aux, slots) && 0 < cidr <= LENGTH && HostZero(ip, cidr) && Get(aux, Key(ip, cidr)).Some?
    requires i < SLOTS
    ensures |TableDelete(aux, slots, ip, cidr)| == SLOTS
    ensures TableDelete(aux, slots, ip, cidr)[i].child <==>
              slots[i].child && Touched(Map(DeleteT(aux, Key(ip, cidr))), ToBits(i, INITIAL_BITS))
  {
    hide SlotOk, Fits, Canonical, Packs, Touched;
    var aux', slots', p := DeleteT(aux, Key(ip, cidr)), TableDelete(aux, slots, ip, cidr), ToBits(i, INITIAL_BITS);
    TableDeleteKeeps(aux, slots, ip, cidr);
    assert SlotOk(aux', p, slots'[i]);
    SlotTouched(aux', p, slots'[i]);
    if cidr > INITIAL_BITS { DeleteReadyLong(aux, slots, ip, cidr); }
  }
}
