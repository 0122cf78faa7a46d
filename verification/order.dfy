/** The order in which a trie is enumerated (lib/bitmap_v4.c): the rules of a node by position, then child by
    child. */
module Order {
  import opened Words
  import opened Addresses

  /** Where a key of a node comes in the enumeration. */
  function Turn(k: Bits): nat {
    if |k| < STRIDE then Pos(k) else 63 + Val(k[..STRIDE])
  }

  lemma {:induction false} TurnBelow(k: Bits)
    ensures Turn(k) < 127
    ensures |k| < STRIDE <==> Turn(k) < 63
  {
    if |k| < STRIDE { PosSmall(k); } else { StrideBound(k); }
  }

  predicate Earlier(a: Bits, b: Bits) {
    || Turn(a) < Turn(b)
    || (|a| >= STRIDE && |b| >= STRIDE && Turn(a) == Turn(b) && Earlier(a[STRIDE..], b[STRIDE..]))
  }

  /** Keys of the same turn end in the same node and are equal, or go on to the same child. */
  lemma {:induction false} SameTurn(a: Bits, b: Bits)
    requires Turn(a) == Turn(b)
    ensures a == b || (|a| >= STRIDE && |b| >= STRIDE && a[..STRIDE] == b[..STRIDE])
  {
    TurnBelow(a);
    TurnBelow(b);
    if |a| < STRIDE { PosInjective(a, b); } else { ValInjective(a[..STRIDE], b[..STRIDE]); }
  }

  // ----- a strict total order ---------------------------------------------------------

  lemma {:induction false} EarlierApart(a: Bits, b: Bits)
    requires Earlier(a, b)
    ensures a != b && !Earlier(b, a)
  {
    if Turn(a) >= Turn(b) { EarlierApart(a[STRIDE..], b[STRIDE..]); }
  }

  lemma {:induction false} EarlierTrans(a: Bits, b: Bits, c: Bits)
    requires Earlier(a, b) && Earlier(b, c)
    ensures Earlier(a, c)
  {
    TurnBelow(a);
    TurnBelow(c);
    if Turn(a) >= Turn(c) { EarlierTrans(a[STRIDE..], b[STRIDE..], c[STRIDE..]); }
  }

  lemma {:induction false} EarlierTotal(a: Bits, b: Bits)
    requires a != b
    ensures Earlier(a, b) || Earlier(b, a)
  {
    if Turn(a) == Turn(b) {
      SameTurn(a, b);
      assert a == a[..STRIDE] + a[STRIDE..] && b == b[..STRIDE] + b[STRIDE..];
      EarlierTotal(a[STRIDE..], b[STRIDE..]);
    }
  }

  // ----- which order it is ------------------------------------------------------------

  /** In a node the shorter prefix is first, of two of the same length the lower one; the prefixes of a node
      come before all that is below it; of two children the lower one is first, with all that is below it; and
      below the same child the order is again this one. */
  lemma {:induction false} EarlierIs(a: Bits, b: Bits)
    ensures |a| < 6 && |b| < 6 ==> (Earlier(a, b) <==> |a| < |b| || (|a| == |b| && Val(a) < Val(b)))
    ensures |a| < 6 <= |b| ==> Earlier(a, b)
    ensures |b| < 6 <= |a| ==> !Earlier(a, b)
    ensures |a| >= 6 && |b| >= 6 && a[..6] != b[..6] ==> (Earlier(a, b) <==> Val(a[..6]) < Val(b[..6]))
    ensures |a| >= 6 && |b| >= 6 && a[..6] == b[..6] ==> (Earlier(a, b) <==> Earlier(a[6..], b[6..]))
  {
    TurnBelow(a);
    TurnBelow(b);
    if |a| < |b| { PosMono(a, b); } else if |b| < |a| { PosMono(b, a); }
    if |a| >= 6 && |b| >= 6 && a[..6] != b[..6] && Val(a[..6]) == Val(b[..6]) { ValInjective(a[..6], b[..6]); }
  }

  /** A prefix comes before every longer one that it covers. */
  lemma {:induction false} CoverFirst(a: Bits, b: Bits)
    requires |a| < |b| && b[..|a|] == a
    ensures Earlier(a, b)
  {
    TurnBelow(a);
    TurnBelow(b);
    if |a| < STRIDE {
      if |b| < STRIDE { PosMono(a, b); }
    } else {
      assert a[..STRIDE] == b[..STRIDE];
      assert b[STRIDE..][..|a| - STRIDE] == a[STRIDE..];
      CoverFirst(a[STRIDE..], b[STRIDE..]);
    }
  }

  lemma {:induction false} ValConcat(s: Bits, t: Bits)
    ensures Val(s + t) == Shl(Val(s), |t|) + Val(t)
  {
    if t == [] {
      assert s + t == s;
    } else {
      var m := |t| - 1;
      ValConcat(s, t[..m]);
      assert (s + t)[..|s| + m] == s + t[..m];
    }
  }

  lemma {:induction false} ShlGap(x: nat, y: nat, n: nat)
    requires x < y
    ensures Shl(x, n) + Pow2(n) <= Shl(y, n)
  {
    if n > 0 { ShlGap(x, y, n - 1); }
  }

  /** The higher number is the one with the higher first part, or with the same and a higher second part. */
  lemma {:induction false} ValOrder(s: Bits, t: Bits, s': Bits, t': Bits)
    requires |s| == |s'| && |t| == |t'| && Val(s + t) < Val(s' + t')
    ensures Val(s) < Val(s') || (s == s' && Val(t) < Val(t'))
  {
    hide Val, Shl, Pow2;
    ValConcat(s, t);
    ValConcat(s', t');
    ValBound(t);
    ValBound(t');
    if Val(s) > Val(s') {
      ShlGap(Val(s'), Val(s), |t|);
    } else if Val(s) == Val(s') {
      ValInjective(s, s');
    }
  }

  /** Prefixes of the same length come in the order of their numbers. */
  lemma {:induction false} LowerFirst(a: Bits, b: Bits)
    requires |a| == |b| && Val(a) < Val(b)
    ensures Earlier(a, b)
  {
    if |a| >= STRIDE {
      assert a == a[..STRIDE] + a[STRIDE..] && b == b[..STRIDE] + b[STRIDE..];
      ValOrder(a[..STRIDE], a[STRIDE..], b[..STRIDE], b[STRIDE..]);
      if Val(a[..STRIDE]) == Val(b[..STRIDE]) { LowerFirst(a[STRIDE..], b[STRIDE..]); }
    }
  }

  // ----- lists in this order ----------------------------------------------------------

  predicate Rising(keys: seq<Bits>) {
    forall i, j | 0 <= i < j < |keys| :: Earlier(keys[i], keys[j])
  }

  lemma {:induction false} KeysApart(keys: seq<Bits>)
    requires Rising(keys)
    ensures forall i, j | 0 <= i < j < |keys| :: keys[i] != keys[j]
  {
    forall i, j | 0 <= i < j < |keys| ensures keys[i] != keys[j] {
      EarlierApart(keys[i], keys[j]);
    }
  }

  /** In a rising list the earlier key has the lower index. */
  lemma {:induction false} RisingIndex(keys: seq<Bits>, i: nat, j: nat)
    requires Rising(keys) && i < |keys| && j < |keys| && Earlier(keys[i], keys[j])
    ensures i < j
  {
    EarlierApart(keys[i], keys[j]);
  }

  /** There is only one rising list of the same keys. */
  lemma {:induction false} RisingUnique(ks: seq<Bits>, js: seq<Bits>)
    requires Rising(ks) && Rising(js) && forall k: Bits :: k in ks <==> k in js
    ensures ks == js
  {
    if ks != [] && js != [] {
      SameFirst(ks, js);
      KeysApart(ks);
      KeysApart(js);
      forall k: Bits ensures k in ks[1..] <==> k in js[1..] {
        assert k in ks <==> k == ks[0] || k in ks[1..];
        assert k in js <==> k == js[0] || k in js[1..];
      }
      RisingUnique(ks[1..], js[1..]);
    } else if ks != [] {
      HasSome(ks);
    } else if js != [] {
      HasSome(js);
    }
  }

  lemma {:induction false} HasSome(ks: seq<Bits>)
    requires ks != []
    ensures exists k: Bits :: k in ks
  {
    assert ks[0] in ks;
  }

  lemma {:induction false} SameFirst(ks: seq<Bits>, js: seq<Bits>)
    requires Rising(ks) && Rising(js) && ks != [] && js != [] && forall k: Bits :: k in ks <==> k in js
    ensures ks[0] == js[0]
  {
    assert ks[0] in js && js[0] in ks;
    var i :| 0 <= i < |js| && js[i] == ks[0];
    var j :| 0 <= j < |ks| && ks[j] == js[0];
    if i > 0 && j > 0 {
      assert Earlier(js[0], js[i]) && Earlier(ks[0], ks[j]);
      EarlierApart(js[0], js[i]);
    }
  }
}
