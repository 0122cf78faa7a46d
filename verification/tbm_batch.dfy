/** tbm_search_batch (tbm/tbmv4.c): the slots with a trie are gathered, searched together, and
    scattered back. */
module TbmBatch {
  import opened Words
  import opened Addresses
  import opened Trees
  import opened LongestMatch
  import opened NodeSearch
  import opened Memory
  import opened Shapes
  import opened Search
  import opened SearchV4
  import opened SearchBatch
  import opened FrontTable
  import opened TableRuns
  import opened Flags
  import opened TbmTables

  // ----- gathering --------------------------------------------------------------------

  /** How many of the first n lanes have a trie: the place of lane n among the gathered lanes. */
  ghost function Place(kids: seq<bool>, n: nat): (r: nat)
    requires n <= |kids|
    ensures r <= n
  {
    if n == 0 then 0 else Place(kids, n - 1) + if kids[n - 1] then 1 else 0
  }

  lemma {:induction false} PlaceMono(kids: seq<bool>, i: nat, n: nat)
    requires i <= n <= |kids|
    ensures Place(kids, i) <= Place(kids, n)
    ensures i < n && kids[i] ==> Place(kids, i) < Place(kids, n)
  {
    if i < n {
      PlaceMono(kids, i, n - 1);
      if i == n - 1 { assert Place(kids, n) == Place(kids, i) + if kids[i] then 1 else 0; }
    }
  }

  /** The answer for one address. */
  ghost function Best(t: Table, ip: U32): Nhi {
    if Packed(t.aux) then NhiOf(Longest(Map(t.aux), Addr(ip), LENGTH + 1)) else NULL
  }

  /** Lane i has its answer: in `ret`, or with the trie at its place among the gathered lanes. */
  ghost predicate Placed(t: Table, ips: seq<U32>, kids: seq<bool>, i: nat, ret: seq<Nhi>, mbIps: seq<U32>,
                         ss: seq<Shape>)
    requires i < |kids| && i < |ips|
  {
    if kids[i] then
      && Place(kids, i) < |mbIps| && Place(kids, i) < |ss|
      && Found(ss[Place(kids, i)], Addr(mbIps[Place(kids, i)]), REST) == Best(t, ips[i])
    else i < |ret| && ret[i] == Best(t, ips[i])
  }

  ghost predicate AllPlaced(t: Table, ips: seq<U32>, kids: seq<bool>, n: nat, ret: seq<Nhi>, mbIps: seq<U32>,
                            ss: seq<Shape>) {
    && n <= |kids| && n <= |ips| && |ss| == Place(kids, n)
    && forall i: nat | i < n :: Placed(t, ips, kids, i, ret, mbIps, ss)
  }

  lemma {:induction false} PlacedNone(t: Table, ips: seq<U32>, kids: seq<bool>, ret: seq<Nhi>, mbIps: seq<U32>)
    ensures AllPlaced(t, ips, kids, 0, ret, mbIps, [])
  {
  }

  lemma {:induction false} PlacedKid(t: Table, ips: seq<U32>, kids: seq<bool>, n: nat, ret: seq<Nhi>, mbIps: seq<U32>,
                                     ss: seq<Shape>, x: U32, s: Shape)
    requires AllPlaced(t, ips, kids, n, ret, mbIps, ss) && n < |kids| && n < |ips| && kids[n] && |ss| < |mbIps|
    requires Found(s, Addr(x), REST) == Best(t, ips[n])
    ensures AllPlaced(t, ips, kids, n + 1, ret, mbIps[|ss| := x], ss + [s])
  {
    var ys, rs := mbIps[|ss| := x], ss + [s];
    forall i: nat | i < n + 1 ensures Placed(t, ips, kids, i, ret, ys, rs) {
      if i < n {
        assert Placed(t, ips, kids, i, ret, mbIps, ss);
        PlaceMono(kids, i, n);
      }
    }
  }

  lemma {:induction false} PlacedPtr(t: Table, ips: seq<U32>, kids: seq<bool>, n: nat, ret: seq<Nhi>, mbIps: seq<U32>,
                                     ss: seq<Shape>, r: Nhi)
    requires AllPlaced(t, ips, kids, n, ret, mbIps, ss) && n < |kids| && n < |ips| && !kids[n] && n < |ret|
    requires r == Best(t, ips[n])
    ensures AllPlaced(t, ips, kids, n + 1, ret[n := r], mbIps, ss)
  {
    var rets := ret[n := r];
    forall i: nat | i < n + 1 ensures Placed(t, ips, kids, i, rets, mbIps, ss) {
      if i < n { assert Placed(t, ips, kids, i, ret, mbIps, ss); }
    }
  }

  /** The gathered tries are part of the table. */
  ghost predicate Within(roots: seq<Ptr>, ss: seq<Shape>, own: set<object>) {
    |roots| == |ss| && forall k | 0 <= k < |ss| :: {roots[k].arr} + Foot(ss[k]) <= own
  }

  lemma {:induction false} WithinFoot(roots: seq<Ptr>, ss: seq<Shape>, own: set<object>)
    requires Within(roots, ss, own)
    ensures BatchFoot(roots, ss) <= own
  {
  }

  lemma {:induction false} GatherNone(own: set<object>, roots: seq<Ptr>)
    requires roots == []
    ensures Within(roots, [], own) && Tries(roots, [], REST)
  {
  }

  lemma {:induction false} GatherMore(roots: seq<Ptr>, ss: seq<Shape>, own: set<object>, root: Ptr, s: Shape)
    requires Within(roots, ss, own) && Tries(roots, ss, REST)
    requires TrieAt(root, s, REST) && {root.arr} + Foot(s) <= own
    ensures Within(roots + [root], ss + [s], own) && Tries(roots + [root], ss + [s], REST)
  {
    hide TrieAt;
  }

  /** What one lane finds in its slot. */
  lemma {:induction false} LaneFinds(m: Mm, e: array<Struct>, flags: array<nat>, upM: Mm, up: array<Struct>,
                                     shapes: seq<Shape>, us: Shape, t: Table, ip: U32)
    requires TableIn(m, e, flags, upM, up, shapes, us, t)
    ensures e.Length == flags.Length == |shapes| == SLOTS && Index(ip) < SLOTS && INITIAL_BITS < 32
    ensures HasChild(flags[Index(ip)]) ==>
              && TrieAt(Ptr(e, Index(ip)), shapes[Index(ip)], REST)
              && {e} + Foot(shapes[Index(ip)]) <= Lower(m, e, flags, shapes)
              && Found(shapes[Index(ip)], Addr(Shl32(ip, INITIAL_BITS)), REST) == Best(t, ip)
    ensures !HasChild(flags[Index(ip)]) ==> e[Index(ip)].external == Best(t, ip)
  {
    hide TableIn, Packs, Shapes.Matches, Fits, Longest, Answer;
    SearchFinds(m, e, flags, upM, up, shapes, us, t, ip);
  }

  /** The children marks of the lanes. */
  ghost function Kids(flags: array<nat>, ips: seq<U32>, cnt: nat): (r: seq<bool>)
    requires flags.Length == SLOTS && cnt <= |ips|
    reads flags
    ensures |r| == cnt && forall i | 0 <= i < cnt :: r[i] == HasChild(flags[Index(ips[i])])
  {
    seq(cnt, i requires 0 <= i < cnt reads flags => HasChild(flags[Index(ips[i])]))
  }

  /** The first two loops. */
  method Gather(m: Mm, e: array<Struct>, flags: array<nat>, ghost upM: Mm, ghost up: array<Struct>,
                ip: array<U32>, ret: array<Nhi>, mbN: array<Ptr>, mbIp: array<U32>, cnt: nat,
                ghost shapes: seq<Shape>, ghost us: Shape, ghost t: Table, ghost kids: seq<bool>)
    returns (mbCnt: nat, ghost ss: seq<Shape>)
    requires TableIn(m, e, flags, upM, up, shapes, us, t)
    requires cnt <= BATCH && ip.Length == ret.Length == mbN.Length == mbIp.Length == BATCH && mbIp != ip
    requires ret !in Lower(m, e, flags, shapes) + Upper(upM, up, us)
    requires mbN !in Lower(m, e, flags, shapes) + Upper(upM, up, us)
    requires mbIp !in Lower(m, e, flags, shapes) + Upper(upM, up, us)
    requires flags.Length == SLOTS && kids == Kids(flags, ip[..], cnt)
    modifies ret, mbN, mbIp
    ensures mbCnt == |ss| && mbCnt <= cnt
    ensures AllPlaced(t, ip[..], kids, cnt, ret[..], mbIp[..], ss)
    ensures Tries(mbN[..mbCnt], ss, REST) && Within(mbN[..mbCnt], ss, Lower(m, e, flags, shapes))
    ensures ret[cnt..] == old(ret[cnt..])
  {
    hide *;
    mbCnt, ss := 0, [];
    ghost var own := Lower(m, e, flags, shapes);
    PlacedNone(t, ip[..], kids, ret[..], mbIp[..]);
    GatherNone(own, mbN[..0]);
    for i := 0 to cnt
      invariant TableIn(m, e, flags, upM, up, shapes, us, t)
      invariant mbCnt == |ss| && mbCnt <= i
      invariant AllPlaced(t, ip[..], kids, i, ret[..], mbIp[..], ss)
      invariant Tries(mbN[..mbCnt], ss, REST) && Within(mbN[..mbCnt], ss, own)
      invariant ret[cnt..] == old(ret[cnt..])
    {
      LaneFinds(m, e, flags, upM, up, shapes, us, t, ip[i]);
      KidsAre(flags, ip[..], cnt, i);
      var node := Index(ip[i]);
      if HasChild(flags[node]) {
        ghost var ys, ns := mbIp[..], mbN[..];
        PlacedKid(t, ip[..], kids, i, ret[..], mbIp[..], ss, Shl32(ip[i], INITIAL_BITS), shapes[node]);
        GatherMore(mbN[..mbCnt], ss, own, Ptr(e, node), shapes[node]);
        WithinFoot(mbN[..mbCnt] + [Ptr(e, node)], ss + [shapes[node]], own);
        mbIp[mbCnt] := Shl32(ip[i], INITIAL_BITS);
        mbN[mbCnt] := Ptr(e, node);
        ss := ss + [shapes[node]];
        assert mbIp[..] == ys[mbCnt := Shl32(ip[i], INITIAL_BITS)];
        assert mbN[..mbCnt + 1] == ns[..mbCnt] + [Ptr(e, node)];
        mbCnt := mbCnt + 1;
      } else {
        ghost var rs := ret[..];
        PlacedPtr(t, ip[..], kids, i, ret[..], mbIp[..], ss, e[node].external);
        WithinFoot(mbN[..mbCnt], ss, own);
        ret[i] := e[node].external;
        assert ret[..] == rs[i := e[node].external];
      }
    }
  }

  lemma {:induction false} KidsAre(flags: array<nat>, ips: seq<U32>, cnt: nat, i: nat)
    requires flags.Length == SLOTS && i < cnt <= |ips|
    ensures |Kids(flags, ips, cnt)| == cnt && Index(ips[i]) < flags.Length
    ensures Kids(flags, ips, cnt)[i] == HasChild(flags[Index(ips[i])])
  {
  }

  // ----- scattering -------------------------------------------------------------------

  lemma {:induction false} ScatterKid(t: Table, ips: seq<U32>, kids: seq<bool>, i: nat, j: nat, ret: seq<Nhi>,
                                      mbIps: seq<U32>,
                                      ss: seq<Shape>, mbRet: seq<Nhi>)
    requires AllPlaced(t, ips, kids, |kids|, ret, mbIps, ss) && i < |kids| <= |ips| && j == Place(kids, i)
    requires |ss| <= |mbRet| && |ss| <= |mbIps|
    requires forall k | 0 <= k < |ss| :: mbRet[k] == Found(ss[k], Addr(mbIps[k]), REST)
    ensures kids[i] ==> j < |mbRet| && mbRet[j] == Best(t, ips[i])
    ensures !kids[i] ==> i < |ret| && ret[i] == Best(t, ips[i])
    ensures i + 1 <= |kids| && Place(kids, i + 1) == j + if kids[i] then 1 else 0
  {
    assert Placed(t, ips, kids, i, ret, mbIps, ss);
    PlaceMono(kids, i, |kids|);
  }

  /** The last loop. */
  method Scatter(flags: array<nat>, ip: array<U32>, ret: array<Nhi>, mbRet: array<Nhi>, cnt: nat,
                 ghost t: Table, ghost kids: seq<bool>, ghost mbIps: seq<U32>, ghost ss: seq<Shape>)
    requires cnt <= BATCH && ip.Length == ret.Length == mbRet.Length == BATCH == |mbIps| && ret != mbRet
        && |ss| <= cnt
    requires flags.Length == SLOTS && kids == Kids(flags, ip[..], cnt)
    requires AllPlaced(t, ip[..], kids, cnt, ret[..], mbIps, ss)
    requires forall k | 0 <= k < |ss| :: mbRet[k] == Found(ss[k], Addr(mbIps[k]), REST)
    modifies ret
    ensures forall i | 0 <= i < cnt :: ret[i] == Best(t, ip[i])
    ensures ret[cnt..] == old(ret[cnt..])
  {
    hide *;
    ghost var rs := ret[..];
    KidsLength(flags, ip[..], cnt);
    var j := 0;
    PlaceStart(kids);
    for i := 0 to cnt
      invariant j == Place(kids, i)
      invariant forall k | 0 <= k < i :: ret[k] == Best(t, ip[k])
      invariant forall k | i <= k < BATCH :: ret[k] == rs[k]
    {
      KidsAre(flags, ip[..], cnt, i);
      ScatterKid(t, ip[..], kids, i, j, rs, mbIps, ss, mbRet[..]);
      var node := Index(ip[i]);
      if HasChild(flags[node]) {
        ret[i] := mbRet[j];
        j := j + 1;
      }
    }
  }

  lemma {:induction false} KidsLength(flags: array<nat>, ips: seq<U32>, cnt: nat)
    requires flags.Length == SLOTS && cnt <= |ips|
    ensures |Kids(flags, ips, cnt)| == cnt
  {
  }

  lemma {:induction false} PlaceStart(kids: seq<bool>)
    ensures Place(kids, 0) == 0
  {
  }

  /** tbm_search_batch: every lane gets the longest match of its own address. */
  method SearchBatchTable(fct: seq<Word>, mark: array2<LazyTravel>, m: Mm, e: array<Struct>, flags: array<nat>,
                          ghost upM: Mm, ghost up: array<Struct>, ip: array<U32>, ret: array<Nhi>, cnt: nat,
                          ghost shapes: seq<Shape>, ghost us: Shape, ghost t: Table)
    requires TableIn(m, e, flags, upM, up, shapes, us, t) && Ready(fct)
    requires cnt <= BATCH && ip.Length == ret.Length == BATCH && mark.Length0 == BATCH && mark.Length1 == LEVEL
    requires mark !in Lower(m, e, flags, shapes) + Upper(upM, up, us)
    requires ret !in Lower(m, e, flags, shapes) + Upper(upM, up, us)
    modifies mark, ret
    ensures forall i | 0 <= i < cnt :: ret[i] == Best(t, ip[i])
    ensures ret[cnt..] == old(ret[cnt..])
  {
    hide *;
    BatchSizes();
    TableParts(m, e, flags, upM, up, shapes, us, t);
    TableSizes(m, e, flags, upM, up, shapes, us, t);
    var mbN := new Ptr[BATCH](_ => Ptr(e, 0));
    var mbIp := new U32[BATCH](_ => 0);
    var mbRet := new Nhi[BATCH](_ => 0);
    ghost var kids := Kids(flags, ip[..], cnt);
    var mbCnt;
    ghost var ss;
    mbCnt, ss := Gather(m, e, flags, upM, up, ip, ret, mbN, mbIp, cnt, shapes, us, t, kids);
    WithinFoot(mbN[..mbCnt], ss, Lower(m, e, flags, shapes));
    ghost var mbIps := mbIp[..];
    DoSearchLazyBatch(fct, mark, mbN, mbIp, mbRet, mbCnt, ss, REST);
    Scatter(flags, ip, ret, mbRet, cnt, t, kids, mbIps, ss);
  }

  lemma {:induction false} BatchSizes()
    ensures BATCH == 32 && REST <= LENGTH
  {
  }

  lemma {:induction false} TableSizes(m: Mm, e: array<Struct>, flags: array<nat>, upM: Mm, up: array<Struct>,
                                      shapes: seq<Shape>, us: Shape, t: Table)
    requires TableIn(m, e, flags, upM, up, shapes, us, t)
    ensures flags.Length == SLOTS && flags in Lower(m, e, flags, shapes)
  {
  }
}
