/** Longest prefix match (RFC 4632, section 5.1) on a plain map, and how it splits over the
    nodes of a trie. */
module LongestMatch {
  import opened Words
  import opened Addresses
  import opened Trees
  import opened TreeLaws

  datatype Hit = Hit(len: nat, nhi: Nhi)

  /** The longest prefix of a, of length below n, that m knows. */
  ghost function Longest(m: imap<Bits, Nhi>, a: Bits, n: nat): (r: Option<Hit>)
    requires n <= |a| + 1
    ensures r.Some? ==> r.value.len < n
  {
    if n == 0 then None
    else if a[..n - 1] in m then Some(Hit(n - 1, m[a[..n - 1]]))
    else Longest(m, a, n - 1)
  }

  /** The match is the one prefix of a in m that no longer prefix of a in m extends. */
  lemma {:induction false} LongestSpec(m: imap<Bits, Nhi>, a: Bits, n: nat)
    requires n <= |a| + 1
    ensures Longest(m, a, n) == None <==> forall j | 0 <= j < n :: a[..j] !in m
    ensures forall h: Hit :: Longest(m, a, n) == Some(h) <==>
              && h.len < n && a[..h.len] in m && m[a[..h.len]] == h.nhi
              && forall j | h.len < j < n :: a[..j] !in m
  {
    if n > 0 && a[..n - 1] !in m {
      LongestSpec(m, a, n - 1);
    }
  }

  /** What a lookup returns: the next hop of the match, or NULL. */
  function NhiOf(r: Option<Hit>): Nhi {
    if r.Some? then r.value.nhi else NULL
  }

  function Deeper(r: Option<Hit>, d: nat): Option<Hit> {
    if r.Some? then Some(Hit(r.value.len + d, r.value.nhi)) else None
  }

  function OrElse(r: Option<Hit>, s: Option<Hit>): Option<Hit> {
    if r.Some? then r else s
  }

  /** The greatest length below n whose prefix of a is marked in the internal bitmap. */
  function InNode(w: Word, a: Bits, n: nat): (r: Option<nat>)
    requires n <= |a| + 1
    ensures r.Some? ==> r.value < n && Bit(w, Pos(a[..r.value]))
  {
    if n == 0 then None
    else if Bit(w, Pos(a[..n - 1])) then Some(n - 1)
    else InNode(w, a, n - 1)
  }

  lemma {:induction false} InNodeMax(w: Word, a: Bits, n: nat, j: nat)
    requires j < n <= |a| + 1 && Bit(w, Pos(a[..j]))
    ensures InNode(w, a, n).Some? && j <= InNode(w, a, n).value
  {
    if j < n - 1 { InNodeMax(w, a, n - 1, j); }
  }

  /** The answer of one node for the lengths below n. */
  function NodeHit(t: Tree, a: Bits, n: nat): Option<Hit>
    requires Packed(t) && n <= |a| + 1
  {
    var r := InNode(t.inl, a, n);
    if r.Some? then Some(Hit(r.value, RuleAt(t, Pos(a[..r.value])))) else None
  }

  lemma {:induction false} LongestNode(t: Tree, a: Bits, n: nat)
    requires Packed(t) && n <= STRIDE && n <= |a| + 1
    ensures Longest(Map(t), a, n) == NodeHit(t, a, n)
  {
    if n > 0 {
      LongestNode(t, a, n - 1);
      assert Get(t, a[..n - 1]).Some? <==> Bit(t.inl, Pos(a[..n - 1]));
    }
  }

  /** b continues a after its first stride, as far as the lengths below n can see. */
  predicate Continues(a: Bits, b: Bits, n: nat) {
    && STRIDE < n <= |a| + 1
    && n - STRIDE <= |b| + 1
    && b[..n - STRIDE - 1] == a[STRIDE..n - 1]
  }

  lemma {:induction false} LongestFrom(m: imap<Bits, Nhi>, a: Bits, n: nat)
    requires 0 < n <= |a| + 1
    ensures Longest(m, a, n) == if a[..n - 1] in m then Some(Hit(n - 1, m[a[..n - 1]])) else Longest(m, a, n - 1)
    ensures Longest(m, a, 0) == None
  {
  }

  lemma {:induction false} InMap(t: Tree, k: Bits)
    requires Packed(t)
    ensures k in Map(t) <==> Get(t, k).Some?
    ensures k in Map(t) ==> Map(t)[k] == Get(t, k).value
  {
  }

  /** The key of n - 1 bits is looked up in the child. */
  lemma {:induction false} DescendGet(t: Tree, a: Bits, b: Bits, n: nat)
    requires Packed(t) && Continues(a, b, n)
    requires Bit(t.ext, Val(a[..STRIDE]))
    ensures Get(t, a[..n - 1]) == Get(ChildAt(t, Val(a[..STRIDE])), b[..n - STRIDE - 1])
  {
    var k := a[..n - 1];
    assert k[..STRIDE] == a[..STRIDE];
    assert k[STRIDE..] == b[..n - STRIDE - 1];
  }

  /** A node with a child under the address answers from the child first. */
  lemma {:induction false} LongestDescend(t: Tree, a: Bits, b: Bits, n: nat)
    requires Packed(t) && Continues(a, b, n)
    requires Bit(t.ext, Val(a[..STRIDE]))
    ensures Longest(Map(t), a, n)
         == OrElse(Deeper(Longest(Map(ChildAt(t, Val(a[..STRIDE]))), b, n - STRIDE), STRIDE),
                   NodeHit(t, a, STRIDE))
    decreases n
  {
    hide Packs, Get, Map, NodeHit, ChildAt, Longest;
    assert Packed(ChildAt(t, Val(a[..STRIDE])));
    var c := ChildAt(t, Val(a[..STRIDE]));
    DescendGet(t, a, b, n);
    InMap(t, a[..n - 1]);
    InMap(c, b[..n - STRIDE - 1]);
    LongestFrom(Map(t), a, n);
    LongestFrom(Map(c), b, n - STRIDE);
    if n == STRIDE + 1 {
      LongestNode(t, a, STRIDE);
    } else {
      assert b[..n - STRIDE - 2] == b[..n - STRIDE - 1][..n - STRIDE - 2] == a[STRIDE..n - 1][..n - STRIDE - 2]
          == a[STRIDE..n - 2];
      LongestDescend(t, a, b, n - 1);
    }
  }

  /** A node without one answers from its internal bitmap. */
  lemma {:induction false} LongestStop(t: Tree, a: Bits, n: nat)
    requires Packed(t) && STRIDE <= n <= |a| + 1 && STRIDE <= |a|
    requires !Bit(t.ext, Val(a[..STRIDE]))
    ensures Longest(Map(t), a, n) == NodeHit(t, a, STRIDE)
    decreases n
  {
    if n == STRIDE {
      LongestNode(t, a, n);
    } else {
      var k := a[..n - 1];
      assert k[..STRIDE] == a[..STRIDE];
      assert Get(t, k) == None;
      LongestStop(t, a, n - 1);
    }
  }

  /** Lengths beyond the width of the trie do not matter. */
  lemma {:induction false} LongestBeyond(t: Tree, a: Bits, w: nat, n: nat)
    requires Packed(t) && Fits(t, w) && w < n <= |a| + 1
    ensures Longest(Map(t), a, n) == Longest(Map(t), a, w + 1)
    decreases n
  {
    if n > w + 1 {
      if Get(t, a[..n - 1]).Some? { FitsGet(t, w, a[..n - 1]); }
      LongestBeyond(t, a, w, n - 1);
    }
  }

  /** The whole answer of a trie of width w for the address a. */
  ghost function Answer(t: Tree, a: Bits, w: nat): Option<Hit>
    requires Packed(t) && w <= |a|
  {
    Longest(Map(t), a, w + 1)
  }

  function Shifted(a: Bits): Bits
    requires STRIDE <= |a|
  {
    a[STRIDE..] + Zeros(STRIDE)
  }

  lemma {:induction false} ShiftedContinues(a: Bits, n: nat)
    requires STRIDE < n <= |a| + 1
    ensures Continues(a, Shifted(a), n)
  {
  }

  lemma {:induction false} AnswerDescend(t: Tree, a: Bits, w: nat)
    requires Packed(t) && Fits(t, w) && w <= |a| && STRIDE <= |a|
    requires Bit(t.ext, Val(a[..STRIDE]))
    ensures w >= STRIDE && Packed(ChildAt(t, Val(a[..STRIDE]))) && Fits(ChildAt(t, Val(a[..STRIDE])), w - STRIDE)
    ensures Answer(t, a, w)
         == OrElse(Deeper(Answer(ChildAt(t, Val(a[..STRIDE])), Shifted(a), w - STRIDE), STRIDE),
                   NodeHit(t, a, STRIDE))
  {
    hide Packs, Fits, Longest, NodeHit, Val, ToBits, Zeros;
    ChildFits(t, w, Val(a[..STRIDE]));
    ShiftedContinues(a, w + 1);
    LongestDescend(t, a, Shifted(a), w + 1);
  }

  lemma {:induction false} AnswerStop(t: Tree, a: Bits, w: nat)
    requires Packed(t) && Fits(t, w) && w <= |a| && STRIDE <= |a|
    requires !Bit(t.ext, Val(a[..STRIDE]))
    ensures Answer(t, a, w) == NodeHit(t, a, STRIDE)
  {
    if w + 1 >= STRIDE {
      LongestStop(t, a, w + 1);
    } else {
      LongestBeyond(t, a, w, STRIDE);
      LongestNode(t, a, STRIDE);
    }
  }
}
