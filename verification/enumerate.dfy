/** Enumeration of a bitmap trie (lib/bitmap_v4.c). */
module Enumerate {
  import opened Words
  import opened Addresses
  import opened Trees
  import opened TreeLaws
  import opened Memory
  import opened Shapes
  import opened Search
  import opened Order

  /** One call of the visitor. */
  datatype Report = Report(ip: U32, cidr: nat, nhi: Nhi)

  /** The report names the prefix k. */
  ghost predicate Names(r: Report, k: Bits) {
    r.cidr <= LENGTH && r.cidr == |k| && HostZero(r.ip, r.cidr) && Key(r.ip, r.cidr) == k
  }

  /** out reports, in order and each once, exactly the keys of t whose turn comes before `turn`; keys[i] is the
      key of out[i], below the path that leads to t. */
  ghost predicate Lists(t: Tree, path: Bits, turn: nat, out: seq<Report>, keys: seq<Bits>)
    requires Packed(t)
  {
    && |keys| == |out|
    && (forall i | 0 <= i < |out| :: Lists1(t, path, turn, out[i], keys[i]))
    && Rising(keys)
    && forall k: Bits | Get(t, k).Some? && Turn(k) < turn :: k in keys
  }

  ghost predicate Lists1(t: Tree, path: Bits, turn: nat, r: Report, k: Bits)
    requires Packed(t)
  {
    Names(r, path + k) && Get(t, k) == Some(r.nhi) && Turn(k) < turn
  }

  // ----- addresses as numbers ---------------------------------------------------------

  /** The address of the prefix p, zero beyond it. */
  ghost predicate Starts(ip: U32, p: Bits) {
    |p| <= LENGTH && HostZero(ip, |p|) && Key(ip, |p|) == p
  }

  /** ip | x, where x is below the prefix. */
  lemma {:induction false} OrLow(ip: U32, p: Bits, x: nat, left: nat)
    requires Starts(ip, p) && |p| + left == LENGTH && x < Pow2(left)
    ensures Or(ip, x) < 0x1_0000_0000 && Addr(Or(ip, x)) == p + ToBits(x, left)
  {
    var q := Val(p);
    StartsVal(ip, p, left);
    OrHighLow(q, x, left);
    ValBound(p);
    HighLowBound(q, x, |p|, left);
    Pow2Thirty2();
    ToBitsSplit(Or(ip, x), |p|, left);
    ShrHighLow(q, x, left);
    ToBitsAddHigh(q, x, left);
    ToBitsVal(p);
  }

  /** ip | (bit << (left - n)): or-ing the next n bits below a prefix. */
  lemma {:induction false} OrBits(ip: U32, p: Bits, s: Bits, left: nat)
    requires Starts(ip, p) && |p| + left == LENGTH && |s| <= left
    ensures Or(ip, Shl(Val(s), left - |s|)) < 0x1_0000_0000
    ensures Starts(Or(ip, Shl(Val(s), left - |s|)), p + s)
  {
    hide Or, Shl, Val, Pow2, ToBits;
    var k := left - |s|;
    var x := Shl(Val(s), k);
    ToBitsShl(Val(s), |s|, k);
    ToBitsVal(s);
    ShlBelow(s, k);
    OrLow(ip, p, x, left);
    assert Addr(Or(ip, x)) == (p + s) + Zeros(k);
  }

  lemma {:induction false} StartsVal(ip: U32, p: Bits, left: nat)
    requires Starts(ip, p) && |p| + left == LENGTH
    ensures ip == Shl(Val(p), left)
  {
    AddrVal(ip);
    ToBitsShl(Val(p), |p|, left);
    ToBitsVal(p);
    assert Addr(ip) == p + Zeros(left);
    ShlMul(Val(p), left);
    ValBound(p);
    Pow2Add(|p|, left);
    Pow2Thirty2();
    HighLowBound(Val(p), 0, |p|, left);
    ValToBits(Shl(Val(p), left), LENGTH);
  }

  lemma {:induction false} ShlBelow(s: Bits, k: nat)
    ensures Shl(Val(s), k) < Pow2(|s| + k)
  {
    ValBound(s);
    HighLowBound(Val(s), 0, |s|, k);
  }

  // ----- the list grows ---------------------------------------------------------------

  lemma {:induction false} ListsMore(t: Tree, path: Bits, turn: nat, out: seq<Report>, keys: seq<Bits>)
    requires Packed(t) && Lists(t, path, turn, out, keys)
    ensures forall i | 0 <= i < |out| :: Lists1(t, path, turn + 1, out[i], keys[i]) && keys[i] in keys
  {
    forall i | 0 <= i < |out| ensures Lists1(t, path, turn + 1, out[i], keys[i]) {
      assert Lists1(t, path, turn, out[i], keys[i]);
    }
  }

  lemma {:induction false} ListsRule(t: Tree, path: Bits, out: seq<Report>, keys: seq<Bits>, k: Bits, r: Report)
    requires Packed(t) && |k| < STRIDE && Lists(t, path, Pos(k), out, keys)
    requires Names(r, path + k) && Get(t, k) == Some(r.nhi)
    ensures Lists(t, path, Pos(k) + 1, out + [r], keys + [k])
  {
    var turn, o, ks := Pos(k) + 1, out + [r], keys + [k];
    ListsMore(t, path, Pos(k), out, keys);
    forall i, j | 0 <= i < j < |ks| ensures Earlier(ks[i], ks[j]) {
      if j == |keys| { assert Lists1(t, path, Pos(k), out[i], keys[i]); }
    }
    forall j: Bits | Get(t, j).Some? && Turn(j) < turn ensures j in ks {
      if Turn(j) == Pos(k) {
        TurnBelow(k);
        PosInjective(j, k);
      }
    }
  }

  lemma {:induction false} ListsNoRule(t: Tree, path: Bits, out: seq<Report>, keys: seq<Bits>, k: Bits)
    requires Packed(t) && |k| < STRIDE && Lists(t, path, Pos(k), out, keys) && Get(t, k) == None
    ensures Lists(t, path, Pos(k) + 1, out, keys)
  {
    ListsMore(t, path, Pos(k), out, keys);
    forall j: Bits | Get(t, j).Some? && Turn(j) < Pos(k) + 1 ensures j in keys {
      if Turn(j) == Pos(k) {
        TurnBelow(k);
        PosInjective(j, k);
      }
    }
  }

  function Below(s: Bits, keys: seq<Bits>): (r: seq<Bits>)
    ensures |r| == |keys| && forall i | 0 <= i < |keys| :: r[i] == s + keys[i]
  {
    seq(|keys|, i requires 0 <= i < |keys| => s + keys[i])
  }

  /** Every key of the child is a key of the node, at the child's turn. */
  lemma {:induction false} ListsBelow(t: Tree, path: Bits, s: Bits, r: Report, k: Bits)
    requires Packed(t) && |s| == STRIDE && Bit(t.ext, Val(s))
    requires Lists1(ChildAt(t, Val(s)), path + s, 127, r, k)
    ensures Lists1(t, path, 63 + Val(s) + 1, r, s + k) && Turn(s + k) == 63 + Val(s)
  {
    assert (path + s) + k == path + (s + k);
    assert (s + k)[..STRIDE] == s && (s + k)[STRIDE..] == k;
  }

  lemma {:induction false} ListsChild(t: Tree, path: Bits, s: Bits, out: seq<Report>, keys: seq<Bits>,
                                      out': seq<Report>, keys': seq<Bits>)
    requires Packed(t) && |s| == STRIDE && Bit(t.ext, Val(s))
    requires Lists(t, path, 63 + Val(s), out, keys)
    requires Lists(ChildAt(t, Val(s)), path + s, 127, out', keys')
    ensures Lists(t, path, 63 + Val(s) + 1, out + out', keys + Below(s, keys'))
  {
    var turn, o, below := 63 + Val(s) + 1, out + out', Below(s, keys');
    var ks := keys + below;
    ListsMore(t, path, 63 + Val(s), out, keys);
    forall i | 0 <= i < |o| ensures Lists1(t, path, turn, o[i], ks[i]) {
      if i >= |out| { ListsBelow(t, path, s, out'[i - |out|], keys'[i - |out|]); }
    }
    forall i, j | 0 <= i < j < |ks| ensures Earlier(ks[i], ks[j]) {
      if j >= |keys| {
        ListsBelow(t, path, s, out'[j - |out|], keys'[j - |out|]);
        if i < |keys| {
          assert Lists1(t, path, 63 + Val(s), out[i], keys[i]);
        } else {
          ListsBelow(t, path, s, out'[i - |out|], keys'[i - |out|]);
          assert Earlier(keys'[i - |keys|], keys'[j - |keys|]);
          assert ks[i][STRIDE..] == keys'[i - |keys|] && ks[j][STRIDE..] == keys'[j - |keys|];
        }
      }
    }
    forall k: Bits | Get(t, k).Some? && Turn(k) < turn ensures k in ks {
      TurnBelow(k);
      if Turn(k) == 63 + Val(s) { ChildKey(t, s, k, keys', out', path); }
    }
  }

  lemma {:induction false} ChildKey(t: Tree, s: Bits, k: Bits, keys': seq<Bits>, out': seq<Report>, path: Bits)
    requires Packed(t) && |s| == STRIDE && Bit(t.ext, Val(s)) && Get(t, k).Some? && Turn(k) == 63 + Val(s)
    requires Lists(ChildAt(t, Val(s)), path + s, 127, out', keys')
    ensures k in Below(s, keys')
  {
    TurnBelow(k);
    assert |k| >= STRIDE && Val(k[..STRIDE]) == Val(s);
    ValInjective(k[..STRIDE], s);
    TurnBelow(k[STRIDE..]);
    assert k[STRIDE..] in keys';
    var i :| 0 <= i < |keys'| && keys'[i] == k[STRIDE..];
    assert k == s + keys'[i];
    assert Below(s, keys')[i] == k;
  }

  lemma {:induction false} ListsNoChild(t: Tree, path: Bits, s: Bits, out: seq<Report>, keys: seq<Bits>)
    requires Packed(t) && |s| == STRIDE && !Bit(t.ext, Val(s)) && Lists(t, path, 63 + Val(s), out, keys)
    ensures Lists(t, path, 63 + Val(s) + 1, out, keys)
  {
    ListsMore(t, path, 63 + Val(s), out, keys);
    forall k: Bits | Get(t, k).Some? && Turn(k) < 63 + Val(s) + 1 ensures k in keys {
      TurnBelow(k);
    }
  }

  // ----- the method -------------------------------------------------------------------

  lemma {:induction false} RuleTurn(bit: nat, cidr: nat)
    requires cidr < STRIDE && bit < Pow2(cidr)
    ensures Val(ToBits(bit, cidr)) == bit && Pos(ToBits(bit, cidr)) == CountInlBitmap(bit, cidr) < 63
  {
    ValToBits(bit, cidr);
    PosSmall(ToBits(bit, cidr));
  }

  /** A rule of the node fits into what is left of the address. */
  lemma {:induction false} RuleFits(t: Tree, w: nat, k: Bits)
    requires Packed(t) && Fits(t, w) && Get(t, k).Some?
    ensures |k| <= w
  {
    FitsGet(t, w, k);
  }

  /** What one internal position stands for. */
  lemma {:induction false} RulePlace(n: Ptr, ip: U32, leftBits: nat, bit: nat, cidr: nat,
                                     root: Ptr, s: Shape, f: Shape, d: nat, path: Bits) returns (k: Bits)
    requires Seen(root, s, n, f, d) && Packed(Data(f)) && Fits(Data(f), leftBits)
    requires Starts(ip, path) && |path| + leftBits == LENGTH && cidr < STRIDE && bit < Pow2(cidr)
    ensures |k| == cidr && |k| < STRIDE && Pos(k) == CountInlBitmap(bit, cidr) < 63 && n.idx < n.arr.Length
    ensures Bit(n.arr[n.idx].internal, Pos(k)) <==> Get(Data(f), k).Some?
    ensures Bit(n.arr[n.idx].internal, Pos(k)) ==>
              && cidr <= leftBits && n.arr[n.idx].block != null
              && 1 <= Rank(n.arr[n.idx].internal, Pos(k)) <= n.arr[n.idx].block.rules.Length
              && Get(Data(f), k) == Some(NhiAt(n, Pos(k)))
              && Or(ip, Shl(bit, leftBits - cidr)) < 0x1_0000_0000
              && Starts(Or(ip, Shl(bit, leftBits - cidr)), path + k)
  {
    hide Packs, Matches, Fits, Starts, Sees, Or, Shl, HostZero;
    k := ToBits(bit, cidr);
    RuleTurn(bit, cidr);
    SeenNode(root, s, n, f, d);
    if Get(Data(f), k).Some? {
      RuleFits(Data(f), leftBits, k);
      SeenRule(root, s, n, f, d, Pos(k));
      OrBits(ip, path, k, leftBits);
    }
  }

  /** One internal position. */
  method IterRule(n: Ptr, ip: U32, leftBits: nat, curCidr: nat, bit: nat, cidr: nat, out0: seq<Report>,
                  ghost root: Ptr, ghost s: Shape, ghost f: Shape, ghost d: nat, ghost path: Bits,
                  ghost keys0: seq<Bits>)
    returns (out: seq<Report>, ghost keys: seq<Bits>)
    requires Seen(root, s, n, f, d) && Packed(Data(f)) && Fits(Data(f), leftBits)
    requires Starts(ip, path) && |path| == curCidr && curCidr + leftBits == LENGTH
    requires cidr < STRIDE && bit < Pow2(cidr)
    requires Lists(Data(f), path, CountInlBitmap(bit, cidr), out0, keys0)
    ensures Lists(Data(f), path, CountInlBitmap(bit, cidr) + 1, out, keys)
  {
    hide *;
    ghost var k := RulePlace(n, ip, leftBits, bit, cidr, root, s, f, d, path);
    out, keys := out0, keys0;
    var pos := CountInlBitmap(bit, cidr);
    TestIs(n.arr[n.idx].internal, pos);
    if TestBit(n.arr[n.idx].internal, pos) {
      var iptmp := Or(ip, Shl(bit, leftBits - cidr));
      var r := Report(iptmp, curCidr + cidr, NhiAt(n, pos));
      NamesRule(iptmp, path + k, r);
      ListsRule(Data(f), path, out, keys, k, r);
      out, keys := out + [r], keys + [k];
    } else {
      ListsNoRule(Data(f), path, out, keys, k);
    }
  }

  lemma {:induction false} TestIs(w: Word, p: nat)
    requires p < 64
    ensures TestBit(w, p) == Bit(w, p)
  {
  }

  lemma {:induction false} NextTurn(bit: nat, cidr: nat)
    ensures CountInlBitmap(bit, cidr) + 1 == CountInlBitmap(bit + 1, cidr)
    ensures CountInlBitmap(0, cidr) == Pow2(cidr) - 1 && CountInlBitmap(Pow2(cidr), cidr) == Pow2(cidr + 1) - 1
  {
  }

  /** The internal rules of one node. */
  method IterRules(n: Ptr, ip: U32, leftBits: nat, curCidr: nat,
                   ghost root: Ptr, ghost s: Shape, ghost f: Shape, ghost d: nat, ghost path: Bits)
    returns (out: seq<Report>, ghost keys: seq<Bits>)
    requires Seen(root, s, n, f, d) && Packed(Data(f)) && Fits(Data(f), leftBits)
    requires Starts(ip, path) && |path| == curCidr && curCidr + leftBits == LENGTH
    ensures Lists(Data(f), path, 63, out, keys)
  {
    hide *;
    FootAlloc(s);
    out, keys := [], [];
    ListsNothing(Data(f), path);
    RuleTurns();
    var cidr := 0;
    while cidr <= STRIDE - 1
      invariant 0 <= cidr <= STRIDE && Seen(root, s, n, f, d)
      invariant Lists(Data(f), path, Pow2(cidr) - 1, out, keys)
    {
      NextTurn(0, cidr);
      var bit := 0;
      while bit < Pow2(cidr)
        invariant 0 <= bit <= Pow2(cidr) && Seen(root, s, n, f, d)
        invariant Lists(Data(f), path, CountInlBitmap(bit, cidr), out, keys)
      {
        out, keys := IterRule(n, ip, leftBits, curCidr, bit, cidr, out, root, s, f, d, path, keys);
        NextTurn(bit, cidr);
        bit := bit + 1;
      }
      cidr := cidr + 1;
    }
  }

  lemma {:induction false} RuleTurns()
    ensures STRIDE == 6 && Pow2(0) == 1 && Pow2(STRIDE) - 1 == 63
  {
    Pow2Thirty2();
  }

  lemma {:induction false} NamesRule(ip: U32, p: Bits, r: Report)
    requires Starts(ip, p) && r.ip == ip && r.cidr == |p|
    ensures Names(r, p)
  {
  }

  lemma {:induction false} ListsNothing(t: Tree, path: Bits)
    requires Packed(t)
    ensures Lists(t, path, 0, [], [])
  {
  }

  /** bitmap_mb_node_iter: the calls of the visitor for the subtrie at n, in order. */
  method MbNodeIter(n: Ptr, ip: U32, leftBits: nat, curCidr: nat,
                    ghost root: Ptr, ghost s: Shape, ghost f: Shape, ghost d: nat, ghost path: Bits)
    returns (out: seq<Report>, ghost keys: seq<Bits>)
    requires Seen(root, s, n, f, d) && Packed(Data(f)) && Fits(Data(f), leftBits)
    requires Starts(ip, path) && |path| == curCidr && curCidr + leftBits == LENGTH
    ensures Lists(Data(f), path, 127, out, keys)
    decreases leftBits
  {
    hide Packs, Matches, Fits, Lists, Lists1, Starts, Sees, Or, Shl;
    FootAlloc(s);
    out, keys := IterRules(n, ip, leftBits, curCidr, root, s, f, d, path);
    var stride := 0;
    while stride < BITMAP_BITS
      invariant 0 <= stride <= BITMAP_BITS && Seen(root, s, n, f, d)
      invariant Lists(Data(f), path, 63 + stride, out, keys)
    {
      ghost var k := ToBits(stride, STRIDE);
      Pow2Thirty2();
      ValToBits(stride, STRIDE);
      SeenNode(root, s, n, f, d);
      var pos := stride;
      if TestBit(n.arr[n.idx].external, pos) {
        ChildFits(Data(f), leftBits, pos);
        ghost var g := SeenChild(root, s, n, f, d, pos);
        OrBits(ip, path, k, leftBits);
        var next := NextChild(n, pos);
        ghost var ks;
        var rs;
        rs, ks := MbNodeIter(next, Or(ip, Shl(stride, leftBits - STRIDE)), leftBits - STRIDE, curCidr + STRIDE,
                             root, s, g, d + 1, path + k);
        ListsChild(Data(f), path, k, out, keys, rs, ks);
        out, keys := out + rs, keys + Below(k, ks);
      } else {
        ListsNoChild(Data(f), path, k, out, keys);
      }
      stride := stride + 1;
    }
  }

  // ----- what an enumeration is worth -------------------------------------------------

  /** The whole list: each stored prefix is reported exactly once, with its next hop, and nothing else. */
  lemma {:induction false} ListsExactly(t: Tree, out: seq<Report>, keys: seq<Bits>, k: Bits)
    requires Packed(t) && Lists(t, [], 127, out, keys)
    ensures Get(t, k).Some? <==> exists i :: 0 <= i < |out| && Names(out[i], k)
    ensures forall i | 0 <= i < |out| && Names(out[i], k) :: Get(t, k) == Some(out[i].nhi)
    ensures forall i, j | 0 <= i < |out| && 0 <= j < |out| && Names(out[i], k) && Names(out[j], k) :: i == j
  {
    KeysApart(keys);
    forall i | 0 <= i < |out| ensures Names(out[i], keys[i]) && Get(t, keys[i]) == Some(out[i].nhi) {
      assert Lists1(t, [], 127, out[i], keys[i]);
      assert [] + keys[i] == keys[i];
    }
    if Get(t, k).Some? {
      TurnBelow(k);
      var i :| 0 <= i < |keys| && keys[i] == k;
      assert Names(out[i], k);
    }
  }

  /** Inserts the reports into an empty trie, in order. */
  ghost function Rebuild(out: seq<Report>): (t: Tree)
    requires forall i | 0 <= i < |out| :: out[i].cidr <= LENGTH
    ensures Packed(t)
  {
    if out == [] then
      EmptyTree();
      EMPTY
    else
      var r := out[|out| - 1];
      InsertT(Rebuild(out[..|out| - 1]), Key(r.ip, r.cidr), r.nhi)
  }

  lemma {:induction false} RebuildGet(out: seq<Report>, keys: seq<Bits>, k: Bits)
    requires |keys| == |out| && forall i | 0 <= i < |out| :: Names(out[i], keys[i])
    requires forall i, j | 0 <= i < j < |keys| :: keys[i] != keys[j]
    ensures forall i | 0 <= i < |out| :: out[i].cidr <= LENGTH
    ensures Canonical(Rebuild(out))
    ensures k !in keys ==> Get(Rebuild(out), k) == None
    ensures forall i | 0 <= i < |keys| && keys[i] == k :: Get(Rebuild(out), k) == Some(out[i].nhi)
  {
    if out == [] {
      EmptyTree();
    } else {
      var m := |out| - 1;
      RebuildGet(out[..m], keys[..m], k);
      InsertGet(Rebuild(out[..m]), keys[m], out[m].nhi, k);
      InsertCanonical(Rebuild(out[..m]), keys[m], out[m].nhi);
    }
  }

  /** An enumeration rebuilds the same tree, bitmaps and packed blocks included. */
  lemma {:induction false} Rebuilt(t: Tree, out: seq<Report>, keys: seq<Bits>)
    requires Packed(t) && Canonical(t) && Lists(t, [], 127, out, keys)
    ensures forall i | 0 <= i < |out| :: out[i].cidr <= LENGTH
    ensures Rebuild(out) == t
  {
    forall i | 0 <= i < |out| ensures Names(out[i], keys[i]) && Get(t, keys[i]) == Some(out[i].nhi) {
      assert Lists1(t, [], 127, out[i], keys[i]);
      assert [] + keys[i] == keys[i];
    }
    KeysApart(keys);
    RebuildGet(out, keys, []);
    forall k: Bits ensures Get(Rebuild(out), k) == Get(t, k) {
      RebuildGet(out, keys, k);
      TurnBelow(k);
      if k in keys {
        var i :| 0 <= i < |keys| && keys[i] == k;
      }
    }
    CanonicalUnique(Rebuild(out), t);
  }

  /** Some report names the prefix k. */
  ghost predicate Reported(out: seq<Report>, k: Bits) {
    exists i :: 0 <= i < |out| && Names(out[i], k)
  }

  /** Every report is of a prefix: what is not masked is zero. */
  ghost predicate Proper(out: seq<Report>) {
    forall i | 0 <= i < |out| :: out[i].cidr <= LENGTH && HostZero(out[i].ip, out[i].cidr)
  }

  ghost function KeysOf(out: seq<Report>): (r: seq<Bits>)
    requires Proper(out)
    ensures |r| == |out| && forall i | 0 <= i < |out| :: r[i] == Key(out[i].ip, out[i].cidr)
  {
    seq(|out|, i requires 0 <= i < |out| => Key(out[i].ip, out[i].cidr))
  }

  /** A prefix is reported before every longer one that it covers, and of two of the same length the one with
      the lower address. */
  ghost predicate InOrder(out: seq<Report>)
    requires Proper(out)
  {
    forall i, j | 0 <= i < |out| && 0 <= j < |out| ::
      && (out[i].cidr < out[j].cidr && Key(out[j].ip, out[j].cidr)[..out[i].cidr] == Key(out[i].ip, out[i].cidr)
          ==> i < j)
      && (out[i].cidr == out[j].cidr && out[i].ip < out[j].ip ==> i < j)
  }

  lemma {:induction false} RisingInOrder(out: seq<Report>)
    requires Proper(out) && Rising(KeysOf(out))
    ensures InOrder(out)
  {
    forall i, j | 0 <= i < |out| && 0 <= j < |out|
      ensures out[i].cidr < out[j].cidr && Key(out[j].ip, out[j].cidr)[..out[i].cidr] == Key(out[i].ip, out[i].cidr)
              ==> i < j
      ensures out[i].cidr == out[j].cidr && out[i].ip < out[j].ip ==> i < j
    {
      var a, b := KeysOf(out)[i], KeysOf(out)[j];
      if |a| < |b| && b[..|a|] == a {
        CoverFirst(a, b);
        RisingIndex(KeysOf(out), i, j);
      }
      if |a| == |b| && out[i].ip < out[j].ip {
        KeyOrder(out[i].ip, out[j].ip, |a|);
        LowerFirst(a, b);
        RisingIndex(KeysOf(out), i, j);
      }
    }
  }

  lemma {:induction false} KeyOrder(x: U32, y: U32, n: nat)
    requires n <= LENGTH && HostZero(x, n) && HostZero(y, n) && x < y
    ensures Val(Key(x, n)) < Val(Key(y, n))
  {
    StartsVal(x, Key(x, n), LENGTH - n);
    StartsVal(y, Key(y, n), LENGTH - n);
    if Val(Key(y, n)) < Val(Key(x, n)) { ShlGap(Val(Key(y, n)), Val(Key(x, n)), LENGTH - n); }
  }

  /** A report is fixed by the prefix that it names and its next hop. */
  lemma {:induction false} NamesUnique(r: Report, q: Report, k: Bits)
    requires Names(r, k) && Names(q, k) && r.nhi == q.nhi
    ensures r == q
  {
    StartsVal(r.ip, k, LENGTH - |k|);
    StartsVal(q.ip, k, LENGTH - |k|);
  }

  /** The list of a trie is unique, order included. */
  lemma {:induction false} ListsUnique(t: Tree, path: Bits, turn: nat, out: seq<Report>, keys: seq<Bits>,
                                       out': seq<Report>, keys': seq<Bits>)
    requires Packed(t) && Lists(t, path, turn, out, keys) && Lists(t, path, turn, out', keys')
    ensures out == out' && keys == keys'
  {
    forall k: Bits ensures k in keys <==> k in keys' {
      ListsKeys(t, path, turn, out, keys, k);
      ListsKeys(t, path, turn, out', keys', k);
    }
    RisingUnique(keys, keys');
    forall i | 0 <= i < |out| ensures out[i] == out'[i] {
      assert Lists1(t, path, turn, out[i], keys[i]) && Lists1(t, path, turn, out'[i], keys[i]);
      NamesUnique(out[i], out'[i], path + keys[i]);
    }
  }

  lemma {:induction false} ListsKeys(t: Tree, path: Bits, turn: nat, out: seq<Report>, keys: seq<Bits>, k: Bits)
    requires Packed(t) && Lists(t, path, turn, out, keys)
    ensures k in keys <==> Get(t, k).Some? && Turn(k) < turn
  {
    if k in keys {
      var i :| 0 <= i < |keys| && keys[i] == k;
      assert Lists1(t, path, turn, out[i], keys[i]);
    }
  }

  /** The reports name different prefixes. */
  ghost predicate Distinct(out: seq<Report>) {
    forall i, j, k: Bits | 0 <= i < |out| && 0 <= j < |out| && Names(out[i], k) && Names(out[j], k) :: i == j
  }

  /** Every report carries the next hop of the prefix it names. */
  ghost predicate Truthful(t: Tree, out: seq<Report>)
    requires Packed(t)
  {
    forall i, k: Bits | 0 <= i < |out| && Names(out[i], k) :: Get(t, k) == Some(out[i].nhi)
  }

  lemma {:induction false} WholeList(t: Tree, out: seq<Report>, keys: seq<Bits>)
    requires Packed(t) && Lists(t, [], 127, out, keys)
    ensures forall k: Bits :: Get(t, k).Some? <==> Reported(out, k)
    ensures Truthful(t, out) && Distinct(out)
    ensures Proper(out) && Rising(KeysOf(out)) && InOrder(out)
    ensures Canonical(t) ==> Rebuild(out) == t
  {
    hide Lists, Names, Packs, Get, Canonical;
    forall k: Bits ensures Get(t, k).Some? <==> Reported(out, k) {
      ListsExactly(t, out, keys, k);
    }
    forall i, k: Bits | 0 <= i < |out| && Names(out[i], k) ensures Get(t, k) == Some(out[i].nhi) {
      ListsExactly(t, out, keys, k);
    }
    forall i, j, k: Bits | 0 <= i < |out| && 0 <= j < |out| && Names(out[i], k) && Names(out[j], k) ensures i == j {
      ListsExactly(t, out, keys, k);
    }
    ListsShort(t, out, keys);
    if Canonical(t) { Rebuilt(t, out, keys); }
  }

  lemma {:induction false} ListsShort(t: Tree, out: seq<Report>, keys: seq<Bits>)
    requires Packed(t) && Lists(t, [], 127, out, keys)
    ensures Proper(out) && KeysOf(out) == keys && Rising(keys) && InOrder(out)
  {
    forall i | 0 <= i < |out|
      ensures out[i].cidr <= LENGTH && HostZero(out[i].ip, out[i].cidr) && Key(out[i].ip, out[i].cidr) == keys[i]
    {
      assert Lists1(t, [], 127, out[i], keys[i]);
      assert [] + keys[i] == keys[i];
    }
    assert KeysOf(out) == keys;
    RisingInOrder(out);
  }

  lemma {:induction false} WholeTrie()
    ensures LENGTH == 32 && Starts(0, [])
  {
    ZeroBits(LENGTH);
  }

  /** bitmap_print_all_prefix: all reports of a trie. Each stored prefix is reported once with its next hop,
      nothing else is, and inserting the reports into an empty trie gives back the same tree. */
  method AllPrefixes(root: Ptr, ghost s: Shape) returns (out: seq<Report>)
    requires At(root, s) && Match(s, 0) && Packed(Data(s)) && Fits(Data(s), LENGTH)
    ensures forall k: Bits :: Get(Data(s), k).Some? <==> Reported(out, k)
    ensures Truthful(Data(s), out) && Distinct(out)
    ensures Proper(out) && Rising(KeysOf(out)) && InOrder(out)
    ensures Canonical(Data(s)) ==> Rebuild(out) == Data(s)
  {
    hide *;
    SeenRoot(root, s);
    WholeTrie();
    ghost var keys;
    out, keys := MbNodeIter(root, 0, LENGTH, 0, root, s, s, 0, []);
    WholeList(Data(s), out, keys);
  }
}
