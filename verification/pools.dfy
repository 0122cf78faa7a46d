/** One share (lib/mm_color.c) as a value: areas, free lists, blocks in use, and how a request is served. */
module Pools {
  import opened Memory
  import opened Colors

  /** A block of `units` node units. */
  datatype Blk = Blk(at: nat, units: nat)

  function End(b: Blk): nat {
    b.at + b.units * NODE_SIZE
  }

  predicate Disjoint(b: Blk, c: Blk) {
    End(b) <= c.at || End(c) <= b.at
  }

  /** free[n] lists the freed blocks of n units; `carved` are all blocks ever cut from an area,
      `live` those in use. */
  datatype Pool = Pool(areas: seq<Area>, free: seq<seq<nat>>, live: set<Blk>, carved: set<Blk>)

  predicate InArea(a: Area, b: Blk) {
    a.start <= b.at && End(b) <= a.alloc
  }

  predicate Inside(areas: seq<Area>, b: Blk) {
    exists i :: 0 <= i < |areas| && InArea(areas[i], b)
  }

  predicate AreasOk(base: nat, pfn: seq<nat>, sh: Share, areas: seq<Area>) {
    && |areas| > 0
    && (forall i | 0 <= i < |areas| :: AreaOk(base, pfn, sh, areas[i]))
    && (forall i, j | 0 <= i < j < |areas| :: areas[i].start + sh.size <= areas[j].start)
    && Number(base, pfn, sh, areas[|areas| - 1].start) == |areas| - 1
  }

  predicate FreeOk(free: seq<seq<nat>>, live: set<Blk>, carved: set<Blk>) {
    && |free| == CLASSES
    && (forall n, i | 0 < n < CLASSES && 0 <= i < |free[n]| ::
          Blk(free[n][i], n) in carved && Blk(free[n][i], n) !in live)
    && (forall n, i, j | 0 < n < CLASSES && 0 <= i < j < |free[n]| :: free[n][i] != free[n][j])
  }

  /** Every block is in use or on the free list of its size. */
  predicate Accounted(free: seq<seq<nat>>, live: set<Blk>, carved: set<Blk>)
    requires |free| == CLASSES
  {
    forall b | b in carved :: b in live || (b.units < CLASSES && b.at in free[b.units])
  }

  /** Blocks lie in the used parts of the areas and are pairwise disjoint. */
  predicate BlocksOk(areas: seq<Area>, carved: set<Blk>) {
    && (forall b | b in carved :: b.units > 0 && Inside(areas, b))
    && forall b, c | b in carved && c in carved && b != c :: Disjoint(b, c)
  }

  predicate PoolOk(base: nat, pfn: seq<nat>, sh: Share, p: Pool) {
    && ShareOk(sh) && AreasOk(base, pfn, sh, p.areas) && BlocksOk(p.areas, p.carved)
    && p.live <= p.carved && FreeOk(p.free, p.live, p.carved) && Accounted(p.free, p.live, p.carved)
  }

  // ----- the four changes -------------------------------------------------------------

  /** A share as mc_init leaves it: one area, nothing given out. */
  function Untouched(sh: Share, start: nat): Pool {
    Pool([Area(start, start, sh.size)], seq(CLASSES, _ => []), {}, {})
  }

  lemma {:induction false} UntouchedOk(base: nat, pfn: seq<nat>, sh: Share, start: nat)
    requires ShareOk(sh) && PlacedOk(base, pfn, sh, start) && Number(base, pfn, sh, start) == 0
    ensures PoolOk(base, pfn, sh, Untouched(sh, start)) && Spent(Untouched(sh, start).areas) == 0
  {
    assert Untouched(sh, start).areas[..0] == [];
  }

  /** The first free block of n units. */
  function Popped(p: Pool, n: nat): Pool
    requires n < |p.free| && p.free[n] != []
  {
    p.(free := p.free[n := p.free[n][1..]], live := p.live + {Blk(p.free[n][0], n)})
  }

  lemma {:induction false} PopKeeps(base: nat, pfn: seq<nat>, sh: Share, p: Pool, n: nat)
    requires PoolOk(base, pfn, sh, p) && 0 < n < CLASSES && p.free[n] != []
    ensures PoolOk(base, pfn, sh, Popped(p, n)) && Blk(p.free[n][0], n) !in p.live
  {
    hide AreasOk, BlocksOk, ShareOk;
    var q, x := Popped(p, n), p.free[n][0];
    forall k, i | 0 < k < CLASSES && 0 <= i < |q.free[k]|
      ensures Blk(q.free[k][i], k) in q.carved && Blk(q.free[k][i], k) !in q.live
    {
      if k == n { assert q.free[n][i] == p.free[n][i + 1]; }
    }
    forall b | b in q.carved ensures b in q.live || (b.units < CLASSES && b.at in q.free[b.units]) {
      if b !in q.live && b.units == n {
        var i :| 0 <= i < |p.free[n]| && p.free[n][i] == b.at;
        assert i > 0 && q.free[n][i - 1] == b.at;
      }
    }
  }

  /** A block goes to the head of the free list of its size; there are no blocks of size 0. */
  function Pushed(p: Pool, n: nat, x: nat): Pool
    requires n < |p.free|
  {
    p.(free := p.free[n := [x] + p.free[n]], live := p.live - {Blk(x, n)})
  }

  lemma {:induction false} PushKeeps(base: nat, pfn: seq<nat>, sh: Share, p: Pool, n: nat, x: nat)
    requires PoolOk(base, pfn, sh, p) && n < CLASSES && (n > 0 ==> Blk(x, n) in p.live)
    ensures PoolOk(base, pfn, sh, Pushed(p, n, x))
  {
    hide AreasOk, ShareOk, Inside, Disjoint;
    var q := Pushed(p, n, x);
    forall k, i | 0 < k < CLASSES && 0 <= i < |q.free[k]|
      ensures Blk(q.free[k][i], k) in q.carved && Blk(q.free[k][i], k) !in q.live
    {
      if k == n && i > 0 { assert q.free[n][i] == p.free[n][i - 1]; }
    }
    forall b | b in q.carved ensures b in q.live || (b.units < CLASSES && b.at in q.free[b.units]) {
      if b == Blk(x, n) {
        assert q.free[n][0] == x;
      } else if b !in p.live {
        var i :| 0 <= i < |p.free[b.units]| && p.free[b.units][i] == b.at;
        if b.units == n { assert q.free[n][i + 1] == b.at; }
      }
    }
  }

  /** lma_alloc: a block of n units from area i. */
  function Bumped(p: Pool, i: nat, n: nat): Pool
    requires i < |p.areas| && p.areas[i].left > n * NODE_SIZE
  {
    var a := p.areas[i];
    var b := Blk(a.alloc, n);
    p.(areas := p.areas[i := Area(a.start, a.alloc + n * NODE_SIZE, a.left - n * NODE_SIZE)],
       live := p.live + {b}, carved := p.carved + {b})
  }

  lemma {:induction false} BumpApart(base: nat, pfn: seq<nat>, sh: Share, areas: seq<Area>, i: nat, b: Blk, c: Blk)
    requires ShareOk(sh) && AreasOk(base, pfn, sh, areas) && i < |areas|
    requires b.at == areas[i].alloc && End(b) <= areas[i].start + sh.size && Inside(areas, c)
    ensures Disjoint(c, b)
  {
    var j :| 0 <= j < |areas| && InArea(areas[j], c);
    assert AreaOk(base, pfn, sh, areas[j]) && AreaOk(base, pfn, sh, areas[i]);
    if j < i {
      assert areas[j].start + sh.size <= areas[i].start;
    } else if i < j {
      assert areas[i].start + sh.size <= areas[j].start;
    }
  }

  lemma {:induction false} AreaUsed(base: nat, pfn: seq<nat>, sh: Share, areas: seq<Area>, i: nat)
    requires AreasOk(base, pfn, sh, areas) && i < |areas|
    ensures areas[i].start <= areas[i].alloc
  {
    assert AreaOk(base, pfn, sh, areas[i]);
  }

  lemma {:induction false} BumpAreas(base: nat, pfn: seq<nat>, sh: Share, areas: seq<Area>, i: nat, n: nat)
    requires ShareOk(sh) && AreasOk(base, pfn, sh, areas) && i < |areas| && areas[i].left > n * NODE_SIZE
    ensures End(Blk(areas[i].alloc, n)) <= areas[i].start + sh.size
    ensures AreasOk(base, pfn, sh,
                    areas[i := Area(areas[i].start, areas[i].alloc + n * NODE_SIZE, areas[i].left - n * NODE_SIZE)])
  {
    hide Number, ColorAt, Huge, Off;
    assert AreaOk(base, pfn, sh, areas[i]);
  }

  lemma {:induction false} BumpKeeps(base: nat, pfn: seq<nat>, sh: Share, p: Pool, i: nat, n: nat)
    requires PoolOk(base, pfn, sh, p) && 0 < n && i < |p.areas| && p.areas[i].left > n * NODE_SIZE
    ensures PoolOk(base, pfn, sh, Bumped(p, i, n)) && Blk(p.areas[i].alloc, n) !in p.carved
  {
    hide AreasOk;
    var q, b := Bumped(p, i, n), Blk(p.areas[i].alloc, n);
    BumpAreas(base, pfn, sh, p.areas, i, n);
    forall c | c in p.carved ensures Disjoint(c, b) && Inside(q.areas, c) {
      BumpApart(base, pfn, sh, p.areas, i, b, c);
      var j :| 0 <= j < |p.areas| && InArea(p.areas[j], c);
      assert InArea(q.areas[j], c);
    }
    AreaUsed(base, pfn, sh, p.areas, i);
    assert InArea(q.areas[i], b);
    assert !Disjoint(b, b);
  }

  /** lma_init: one more area behind the last, as long as its huge page is within the mapping. */
  function Grown(base: nat, pfn: seq<nat>, sh: Share, p: Pool): Pool {
    var k := |p.areas| - 1;
    if k >= 0 && base <= p.areas[k].start && NewPage(base, sh, p.areas[k].start) < |pfn| then
      var start := NewStart(base, pfn, sh, p.areas[k].start);
      p.(areas := p.areas + [Area(start, start, sh.size)])
    else p
  }

  lemma {:induction false} GrowKeeps(base: nat, pfn: seq<nat>, sh: Share, p: Pool)
    requires PoolOk(base, pfn, sh, p)
    ensures PoolOk(base, pfn, sh, Grown(base, pfn, sh, p))
  {
    hide NewStart, PlacedOk, Number;
    var q, k := Grown(base, pfn, sh, p), |p.areas| - 1;
    assert AreaOk(base, pfn, sh, p.areas[k]);
    if q != p {
      NewStartOk(base, pfn, sh, p.areas[k].start);
      NumberNext(base, pfn, sh, p.areas[k].start);
      forall i, j | 0 <= i < j < |q.areas| ensures q.areas[i].start + sh.size <= q.areas[j].start {
        if j == k + 1 && i < k { assert p.areas[i].start + sh.size <= p.areas[k].start; }
      }
      forall b | b in p.carved ensures Inside(q.areas, b) {
        var j :| 0 <= j < |p.areas| && InArea(p.areas[j], b);
        assert q.areas[j] == p.areas[j];
      }
    }
  }

  // ----- serving a request ------------------------------------------------------------

  /** What a request comes to: NULL, a block, or an access outside of the arrays of the allocator. */
  datatype Outcome = Null | At(p: nat) | OutOfBounds

  /** find_lma: the first area with room for n units, or |areas|. */
  function FirstFit(areas: seq<Area>, n: nat): (k: nat)
    ensures k <= |areas| && (k < |areas| ==> areas[k].left > n * NODE_SIZE)
    ensures forall i | 0 <= i < k :: areas[i].left <= n * NODE_SIZE
  {
    if areas == [] || areas[0].left > n * NODE_SIZE then 0 else 1 + FirstFit(areas[1..], n)
  }

  /** A share grows exactly as long as it has not got all its areas, and then by one area, which has room
      for every request that has a free list. */
  lemma {:induction false} GrownIs(base: nat, pfn: seq<nat>, sh: Share, p: Pool)
    requires PoolOk(base, pfn, sh, p)
    ensures 0 < |p.areas| <= Capacity(pfn, sh) && base <= p.areas[|p.areas| - 1].start
    ensures NewPage(base, sh, p.areas[|p.areas| - 1].start) < |pfn| <==> |p.areas| < Capacity(pfn, sh)
    ensures var g := Grown(base, pfn, sh, p);
            if |p.areas| < Capacity(pfn, sh) then
              var start := NewStart(base, pfn, sh, p.areas[|p.areas| - 1].start);
              g == p.(areas := p.areas + [Area(start, start, sh.size)]) && sh.size > CLASSES * NODE_SIZE
            else g == p
  {
    hide BlocksOk, FreeOk, Accounted, ColorAt, Huge, Off, NewPage, NewStart, Capacity, Number;
    var last := p.areas[|p.areas| - 1].start;
    assert AreaOk(base, pfn, sh, p.areas[|p.areas| - 1]);
    NumberNext(base, pfn, sh, last);
    NumberBelow(base, pfn, sh, last);
    assert sh.size >= PAGE_SIZE;
  }

  /** lm_alloc: the first free block of the size, else a cut from the first area with room, else a cut from
      a new area. */
  function Serve(base: nat, pfn: seq<nat>, sh: Share, p: Pool, n: nat): (Outcome, Pool)
    requires PoolOk(base, pfn, sh, p) && 0 < n < CLASSES
  {
    if p.free[n] != [] then
      (At(p.free[n][0]), Popped(p, n))
    else
      var k := FirstFit(p.areas, n);
      if k < |p.areas| then
        (At(p.areas[k].alloc), Bumped(p, k, n))
      else
        GrownIs(base, pfn, sh, p);
        var g := Grown(base, pfn, sh, p);
        if k < |g.areas| then (At(g.areas[k].alloc), Bumped(g, k, n)) else (OutOfBounds, p)
  }

  /** What a request gets, in bytes, where p becomes q: the head of the free list of its size; without one, the
      next bytes of the first area with room, which loses exactly them; a new area only if none has room. */
  ghost predicate Answered(p: Pool, n: nat, r: Outcome, q: Pool) {
    && n < |p.free| && |p.areas| <= |q.areas| <= |p.areas| + 1
    && (p.free[n] != [] ==>
          r == At(p.free[n][0]) && q.areas == p.areas && q.free == p.free[n := p.free[n][1..]])
    && (p.free[n] == [] ==> q.free == p.free)
    && (forall k | 0 <= k < |p.areas| && p.free[n] == [] && p.areas[k].left > 24 * n
        && (forall i | 0 <= i < k :: p.areas[i].left <= 24 * n)
          :: r == At(p.areas[k].alloc)
             && q.areas == p.areas[k := Area(p.areas[k].start, r.p + 24 * n, p.areas[k].left - 24 * n)])
    && (|q.areas| > |p.areas| ==>
          && p.free[n] == [] && (forall i | 0 <= i < |p.areas| :: p.areas[i].left <= 24 * n)
          && q.areas[..|p.areas|] == p.areas && r == At(q.areas[|p.areas|].start)
          && q.areas[|p.areas|].alloc == r.p + 24 * n)
  }

  lemma {:induction false} ServeIs(base: nat, pfn: seq<nat>, sh: Share, p: Pool, n: nat)
    requires PoolOk(base, pfn, sh, p) && 0 < n < CLASSES
    ensures Answered(p, n, Serve(base, pfn, sh, p, n).0, Serve(base, pfn, sh, p, n).1)
  {
    hide PoolOk, Capacity, NewPage, NewStart, Grown;
    LiveCarved(base, pfn, sh, p);
    GrownIs(base, pfn, sh, p);
  }

  /** A share fails a request exactly when no block of the size is free, no area has room, and all its areas
      are there already. */
  lemma {:induction false} ServeFails(base: nat, pfn: seq<nat>, sh: Share, p: Pool, n: nat)
    requires PoolOk(base, pfn, sh, p) && 0 < n < CLASSES
    ensures Serve(base, pfn, sh, p, n).0 == OutOfBounds <==>
              && p.free[n] == [] && |p.areas| == Capacity(pfn, sh)
              && forall i | 0 <= i < |p.areas| :: p.areas[i].left <= n * NODE_SIZE
    ensures Serve(base, pfn, sh, p, n).0 == OutOfBounds ==> Serve(base, pfn, sh, p, n).1 == p
  {
    hide PoolOk, Popped, Bumped, Grown, Capacity, NewPage, NewStart;
    LiveCarved(base, pfn, sh, p);
    GrownIs(base, pfn, sh, p);
  }

  /** A block served was not in use, is now, and nothing else about what is in use changes. */
  lemma {:induction false} ServeKeeps(base: nat, pfn: seq<nat>, sh: Share, p: Pool, n: nat, x: nat)
    requires PoolOk(base, pfn, sh, p) && 0 < n < CLASSES && Serve(base, pfn, sh, p, n).0 == At(x)
    ensures PoolOk(base, pfn, sh, Serve(base, pfn, sh, p, n).1)
    ensures Blk(x, n) !in p.live && Serve(base, pfn, sh, p, n).1.live == p.live + {Blk(x, n)}
    ensures base <= x
    ensures Spent(Serve(base, pfn, sh, p, n).1.areas) <= Spent(p.areas) + n * NODE_SIZE
  {
    hide PoolOk, Capacity;
    var q := Serve(base, pfn, sh, p, n).1;
    LiveCarved(base, pfn, sh, p);
    if p.free[n] != [] {
      PopKeeps(base, pfn, sh, p, n);
    } else {
      var k := FirstFit(p.areas, n);
      if k < |p.areas| {
        BumpKeeps(base, pfn, sh, p, k, n);
        SpentUpdate(p.areas, k, q.areas[k]);
      } else {
        GrownIs(base, pfn, sh, p);
        var g := Grown(base, pfn, sh, p);
        GrowKeeps(base, pfn, sh, p);
        BumpKeeps(base, pfn, sh, g, k, n);
        LiveCarved(base, pfn, sh, g);
        SpentMore(p.areas, g.areas[k]);
        SpentUpdate(g.areas, k, q.areas[k]);
      }
    }
    BlkAbove(base, pfn, sh, q, Blk(x, n));
  }

  /** A block given back is the one that the next request of its size gets, and then all is as before. */
  lemma {:induction false} PushServe(base: nat, pfn: seq<nat>, sh: Share, p: Pool, n: nat, x: nat)
    requires PoolOk(base, pfn, sh, p) && 0 < n < CLASSES && Blk(x, n) in p.live
    ensures PoolOk(base, pfn, sh, Pushed(p, n, x))
    ensures Serve(base, pfn, sh, Pushed(p, n, x), n) == (At(x), p)
  {
    hide PoolOk;
    LiveCarved(base, pfn, sh, p);
    PushKeeps(base, pfn, sh, p, n, x);
    var q := Pushed(p, n, x);
    assert q.free[n] == [x] + p.free[n];
    assert q.free[n][1..] == p.free[n];
    assert q.free[n := q.free[n][1..]] == p.free;
    assert q.live + {Blk(x, n)} == p.live;
  }

  lemma {:induction false} LiveCarved(base: nat, pfn: seq<nat>, sh: Share, p: Pool)
    requires PoolOk(base, pfn, sh, p)
    ensures p.live <= p.carved && |p.free| == CLASSES && ShareOk(sh)
  {
  }

  lemma {:induction false} BlkAbove(base: nat, pfn: seq<nat>, sh: Share, p: Pool, b: Blk)
    requires PoolOk(base, pfn, sh, p) && b in p.live
    ensures b.at >= base
  {
    assert Inside(p.areas, b);
    var i :| 0 <= i < |p.areas| && InArea(p.areas[i], b);
    assert AreaOk(base, pfn, sh, p.areas[i]);
  }

  // ----- how much a share can serve ---------------------------------------------------

  /** The bytes cut from the areas so far. */
  function Spent(areas: seq<Area>): int {
    if areas == [] then 0 else Spent(areas[..|areas| - 1]) + areas[|areas| - 1].alloc - areas[|areas| - 1].start
  }

  lemma {:induction false} SpentMore(areas: seq<Area>, a: Area)
    ensures Spent(areas + [a]) == Spent(areas) + a.alloc - a.start
  {
    assert (areas + [a])[..|areas|] == areas;
  }

  lemma {:induction false} SpentUpdate(areas: seq<Area>, k: nat, a: Area)
    requires k < |areas|
    ensures Spent(areas[k := a]) == Spent(areas) + (a.alloc - a.start) - (areas[k].alloc - areas[k].start)
  {
    var m := |areas| - 1;
    if k < m {
      SpentUpdate(areas[..m], k, a);
      assert areas[k := a][..m] == areas[..m][k := a];
    } else {
      assert areas[k := a][..m] == areas[..m];
    }
  }

  lemma {:induction false} SpentAtLeast(areas: seq<Area>, x: int)
    requires forall i | 0 <= i < |areas| :: areas[i].alloc - areas[i].start >= x
    ensures Spent(areas) >= |areas| * x
  {
    if areas != [] {
      SpentAtLeast(areas[..|areas| - 1], x);
      assert |areas| * x == (|areas| - 1) * x + x;
    }
  }

  /** No request fails as long as the share has given out less than this from its areas. */
  lemma {:induction false} Enough(base: nat, pfn: seq<nat>, sh: Share, p: Pool, n: nat)
    requires PoolOk(base, pfn, sh, p) && 0 < n < CLASSES
    requires Spent(p.areas) < Capacity(pfn, sh) * (sh.size - n * NODE_SIZE)
    ensures Serve(base, pfn, sh, p, n).0.At?
  {
    hide BlocksOk, FreeOk, Accounted, PlacedOk, Popped, Bumped, Grown, Capacity, Spent;
    ServeFails(base, pfn, sh, p, n);
    if Serve(base, pfn, sh, p, n).0 == OutOfBounds {
      forall i | 0 <= i < |p.areas| ensures p.areas[i].alloc - p.areas[i].start >= sh.size - n * NODE_SIZE {
        assert AreaOk(base, pfn, sh, p.areas[i]);
      }
      SpentAtLeast(p.areas, sh.size - n * NODE_SIZE);
      assert false;
    }
  }

  /** The bytes of a block lie on the colours of the levels that the share is for. */
  lemma {:induction false} BlockColors(base: nat, pfn: seq<nat>, s: nat, p: Pool, b: Blk, x: nat, level: nat)
    requires |pfn| > 0 && s < SHARE && PoolOk(base, pfn, Shares(pfn[0])[s], p)
    requires b in p.carved && b.at <= x < End(b) && (s == 0 <==> level == 0) && (s == 1 <==> level == 1)
    ensures LevelColor(base, pfn, level, x)
  {
    hide FreeOk, Accounted, Number, ColorAt, Huge, Off, Shares, LevelColor;
    var k :| 0 <= k < |p.areas| && InArea(p.areas[k], b);
    assert AreaOk(base, pfn, Shares(pfn[0])[s], p.areas[k]);
    ShareLevel(base, pfn, s, p.areas[k].start, x, level);
  }

  /** Blocks of different shares have no page in common. */
  lemma {:induction false} BlockPages(base: nat, pfn: seq<nat>, i: nat, j: nat, p: Pool, q: Pool, b: Blk, c: Blk,
                                      x: nat, y: nat)
    requires |pfn| > 0 && i < SHARE && j < SHARE && i != j
    requires PoolOk(base, pfn, Shares(pfn[0])[i], p) && PoolOk(base, pfn, Shares(pfn[0])[j], q)
    requires b in p.carved && c in q.carved && b.at <= x < End(b) && c.at <= y < End(c)
    ensures base <= x && base <= y && PageOf(x - base) != PageOf(y - base)
  {
    hide FreeOk, Accounted, Number, ColorAt, Huge, Off, PageOf, Shares;
    var k :| 0 <= k < |p.areas| && InArea(p.areas[k], b);
    var l :| 0 <= l < |q.areas| && InArea(q.areas[l], c);
    assert AreaOk(base, pfn, Shares(pfn[0])[i], p.areas[k]) && AreaOk(base, pfn, Shares(pfn[0])[j], q.areas[l]);
    AreasApart(base, pfn, pfn[0], i, j, p.areas[k].start, q.areas[l].start, x - base, y - base);
  }

  /** In particular they are disjoint. */
  lemma {:induction false} SharesApart(base: nat, pfn: seq<nat>, i: nat, j: nat, p: Pool, q: Pool, b: Blk, c: Blk)
    requires |pfn| > 0 && i < SHARE && j < SHARE && i != j
    requires PoolOk(base, pfn, Shares(pfn[0])[i], p) && PoolOk(base, pfn, Shares(pfn[0])[j], q)
    requires b in p.carved && c in q.carved
    ensures Disjoint(b, c)
  {
    hide AreasOk, FreeOk, Accounted, Shares;
    if !Disjoint(b, c) {
      var x := if b.at < c.at then c.at else b.at;
      BlockPages(base, pfn, i, j, p, q, b, c, x, x);
    }
  }
}
