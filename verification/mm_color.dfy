/** The page-colour allocator (lib/mm_color.c). */
module MmColor {
  import opened Trees
  import opened Memory
  import opened Colors
  import opened Pools

  /** struct lm_area. */
  class LmArea {
    const start: nat
    var alloc: nat
    var left: nat

    constructor (start: nat, left: nat)
      ensures this.start == start && alloc == start && this.left == left
    {
      this.start, alloc, this.left := start, start, left;
    }
  }

  ghost function AreasOf(list: seq<LmArea>): (r: seq<Area>)
    reads list
    ensures |r| == |list|
    ensures forall i | 0 <= i < |list| :: r[i] == Area(list[i].start, list[i].alloc, list[i].left)
  {
    seq(|list|, i requires 0 <= i < |list| reads list => Area(list[i].start, list[i].alloc, list[i].left))
  }

  /** struct mc_priv: the base of the mapping, the frame numbers of its huge pages, and for each share
      a list of areas and the free lists by size. The ghosts record the blocks in use and all blocks. */
  class McPriv {
    const addr: nat
    const pfnbuf: seq<nat>
    const cs: seq<Share>
    var lm: seq<seq<LmArea>>
    var freeHead: seq<seq<seq<nat>>>
    ghost var live: seq<set<Blk>>
    ghost var carved: seq<set<Blk>>

    ghost function AreaSet(): set<object>
      reads this
    {
      set s, i | 0 <= s < |lm| && 0 <= i < |lm[s]| :: lm[s][i] as object
    }

    ghost predicate Shaped()
      reads this
    {
      && addr > 0 && |pfnbuf| > 0 && cs == Shares(pfnbuf[0])
      && |lm| == |freeHead| == |live| == |carved| == SHARE
      && (forall s | 0 <= s < SHARE :: |freeHead[s]| == CLASSES)
      && (forall s, i, t, j | 0 <= s < SHARE && 0 <= t < SHARE && 0 <= i < |lm[s]| && 0 <= j < |lm[t]|
          && (s, i) != (t, j)
            :: lm[s][i] != lm[t][j])
    }

    /** The state of one share. */
    ghost function PoolAt(s: nat): Pool
      requires Shaped() && s < SHARE
      reads this, lm[s]
    {
      Pool(AreasOf(lm[s]), freeHead[s], live[s], carved[s])
    }

    ghost predicate Valid()
      reads this, AreaSet()
    {
      Shaped() && forall s: nat | s < SHARE :: PoolOk(addr, pfnbuf, cs[s], PoolAt(s))
    }

    /** The bytes cut from the areas of the share so far. */
    ghost function SpentAt(s: nat): int
      requires Valid() && s < SHARE
      reads this, AreaSet()
    {
      Spent(PoolAt(s).areas)
    }

    /** No free block of the size, no area with room, and all areas of the share are there. */
    ghost predicate Exhausted(s: nat, nodeNum: nat)
      requires Valid() && s < SHARE && nodeNum < CLASSES
      reads this, AreaSet()
    {
      && freeHead[s][nodeNum] == [] && |lm[s]| == Capacity(pfnbuf, cs[s])
      && forall i | 0 <= i < |lm[s]| :: lm[s][i].left <= nodeNum * NODE_SIZE
    }

    /** The area and colour set-up of mc_init. */
    constructor (addr: nat, pfnbuf: seq<nat>)
      requires addr > 0 && |pfnbuf| > 0
      ensures Valid() && this.addr == addr && this.pfnbuf == pfnbuf && fresh(AreaSet())
      ensures cs[0] == Share(pfnbuf[0] % 8, 8192) && cs[1] == Share((pfnbuf[0] + 2) % 8, 20480)
      ensures cs[2] == Share((pfnbuf[0] + 7) % 8, 4096)
      ensures PoolAt(0) == Untouched(cs[0], addr)
      ensures PoolAt(1) == Untouched(cs[1], addr + cs[0].size)
      ensures PoolAt(2) == Untouched(cs[2], addr + cs[0].size + cs[1].size)
      ensures PlacedOk(addr, pfnbuf, cs[0], addr)
      ensures PlacedOk(addr, pfnbuf, cs[1], addr + cs[0].size)
      ensures PlacedOk(addr, pfnbuf, cs[2], addr + cs[0].size + cs[1].size)
      ensures forall s: nat | s < SHARE :: SpentAt(s) == 0
    {
      hide Valid, Shares, Shaped, PlacedOk, PoolAt, SpentAt;
      this.addr, this.pfnbuf := addr, pfnbuf;
      var css := Shares(pfnbuf[0]);
      cs := css;
      var a0 := new LmArea(addr, css[0].size);
      var a1 := new LmArea(addr + css[0].size, css[1].size);
      var a2 := new LmArea(addr + css[0].size + css[1].size, css[2].size);
      lm := [[a0], [a1], [a2]];
      var none: seq<seq<nat>> := seq(CLASSES, _ => []);
      freeHead := [none, none, none];
      live, carved := [{}, {}, {}], [{}, {}, {}];
      new;
      Initial(a0, a1, a2, none);
    }

    lemma Initial(a0: LmArea, a1: LmArea, a2: LmArea, none: seq<seq<nat>>)
      requires addr > 0 && |pfnbuf| > 0 && cs == Shares(pfnbuf[0])
      requires a0 != a1 && a1 != a2 && a0 != a2 && lm == [[a0], [a1], [a2]]
      requires a0.start == a0.alloc == addr && a0.left == cs[0].size
      requires a1.start == a1.alloc == addr + cs[0].size && a1.left == cs[1].size
      requires a2.start == a2.alloc == addr + cs[0].size + cs[1].size && a2.left == cs[2].size
      requires none == seq(CLASSES, _ => []) && freeHead == [none, none, none]
      requires live == [{}, {}, {}] == carved
      ensures Valid()
      ensures cs[0] == Share(pfnbuf[0] % 8, 8192) && cs[1] == Share((pfnbuf[0] + 2) % 8, 20480)
      ensures cs[2] == Share((pfnbuf[0] + 7) % 8, 4096)
      ensures PoolAt(0) == Untouched(cs[0], addr) && PlacedOk(addr, pfnbuf, cs[0], addr)
      ensures PoolAt(1) == Untouched(cs[1], addr + cs[0].size)
      ensures PoolAt(2) == Untouched(cs[2], addr + cs[0].size + cs[1].size)
      ensures PlacedOk(addr, pfnbuf, cs[1], addr + cs[0].size)
      ensures PlacedOk(addr, pfnbuf, cs[2], addr + cs[0].size + cs[1].size)
      ensures forall s: nat | s < SHARE :: SpentAt(s) == 0
    {
      hide PlacedOk, PoolOk, Spent;
      FirstAreas(addr, pfnbuf);
      ColorAdd(pfnbuf[0], 2);
      ColorAdd(pfnbuf[0] + 2, 5);
      assert PoolAt(0) == Untouched(cs[0], addr);
      assert PoolAt(1) == Untouched(cs[1], addr + cs[0].size);
      assert PoolAt(2) == Untouched(cs[2], addr + cs[0].size + cs[1].size);
      UntouchedOk(addr, pfnbuf, cs[0], addr);
      UntouchedOk(addr, pfnbuf, cs[1], addr + cs[0].size);
      UntouchedOk(addr, pfnbuf, cs[2], addr + cs[0].size + cs[1].size);
    }

    /** One share has a new state, the others have kept theirs. */
    lemma Changed(s: nat, was: seq<Pool>)
      requires Shaped() == true && s < SHARE && |was| == SHARE
      requires forall t: nat | t < SHARE && t != s :: PoolAt(t) == was[t] && PoolOk(addr, pfnbuf, cs[t], was[t])
      requires PoolOk(addr, pfnbuf, cs[s], PoolAt(s)) == true
      ensures Valid()
    {
    }

    ghost function PoolList(): (r: seq<Pool>)
      requires Shaped()
      reads this, AreaSet()
      ensures |r| == SHARE && forall t: nat | t < SHARE :: r[t] == PoolAt(t)
    {
      [PoolAt(0), PoolAt(1), PoolAt(2)]
    }

    /** find_lma: the first area with room, or else a new one; None if that would lie on a huge page outside
        of the mapping, whose frame number the program would read from behind the array. */
    method FindLma(s: nat, nodeNum: nat) returns (r: Option<nat>)
      requires Valid() && s < SHARE && 0 < nodeNum < CLASSES
      modifies this`lm
      ensures Valid() && fresh(AreaSet() - old(AreaSet()))
      ensures forall t: nat | t < SHARE && t != s :: lm[t] == old(lm[t]) && PoolAt(t) == old(PoolAt(t))
      ensures var p := old(PoolAt(s));
              var k := FirstFit(p.areas, nodeNum);
              && PoolAt(s) == (if k < |p.areas| then p else Grown(addr, pfnbuf, cs[s], p))
              && |lm[s]| == |p.areas| + (if k == |p.areas| < Capacity(pfnbuf, cs[s]) then 1 else 0)
              && old(lm[s]) <= lm[s] && r == if k < |lm[s]| then Some(k) else None
    {
      hide PoolOk, Capacity, Grown;
      for i := 0 to |lm[s]|
        invariant forall j | 0 <= j < i :: lm[s][j].left <= nodeNum * NODE_SIZE
      {
        if lm[s][i].left > nodeNum * NODE_SIZE {
          return Some(i);
        }
      }
      r := LmaInit(s);
    }

    /** lma_init: a new area at the end of the list. */
    method LmaInit(s: nat) returns (r: Option<nat>)
      requires Valid() && s < SHARE
      modifies this`lm
      ensures Valid() && fresh(AreaSet() - old(AreaSet()))
      ensures forall t: nat | t < SHARE && t != s :: lm[t] == old(lm[t]) && PoolAt(t) == old(PoolAt(t))
      ensures PoolAt(s) == Grown(addr, pfnbuf, cs[s], old(PoolAt(s))) && old(lm[s]) <= lm[s]
      ensures r == if |old(lm[s])| < Capacity(pfnbuf, cs[s]) then Some(|old(lm[s])|) else None
      ensures |lm[s]| == |old(lm[s])| + if |old(lm[s])| < Capacity(pfnbuf, cs[s]) then 1 else 0
    {
      hide PoolOk, NewStart, Grown, ShareOk, Capacity, NewPage;
      ghost var was := PoolList();
      GrownIs(addr, pfnbuf, cs[s], was[s]);
      GrowKeeps(addr, pfnbuf, cs[s], was[s]);
      var last := lm[s][|lm[s]| - 1];
      var newPage := NewPage(addr, cs[s], last.start);
      if newPage >= |pfnbuf| {
        return None;
      }
      var start := NewStart(addr, pfnbuf, cs[s], last.start);
      var area := new LmArea(start, cs[s].size);
      r := Some(|lm[s]|);
      lm := lm[s := lm[s] + [area]];
      assert PoolAt(s).areas == was[s].areas + [Area(start, start, cs[s].size)];
      Changed(s, was);
    }

    /** lm_alloc: from the free list of the size, or cut from an area. */
    method LmAlloc(nodeNum: nat, s: nat) returns (r: Outcome)
      requires Valid() && s < SHARE && 0 < nodeNum < CLASSES
      modifies this, AreaSet()
      ensures Valid() && fresh(AreaSet() - old(AreaSet()))
      ensures (r, PoolAt(s)) == Serve(addr, pfnbuf, cs[s], old(PoolAt(s)), nodeNum)
      ensures forall t: nat | t < SHARE && t != s :: PoolAt(t) == old(PoolAt(t))
    {
      hide PoolOk, Grown, Bumped, Popped, Capacity;
      ghost var was := PoolList();
      if freeHead[s][nodeNum] != [] {
        PopKeeps(addr, pfnbuf, cs[s], was[s], nodeNum);
        var p := freeHead[s][nodeNum][0];
        PoppedIs(was[s], nodeNum);
        freeHead := freeHead[s := freeHead[s][nodeNum := freeHead[s][nodeNum][1..]]];
        live := live[s := live[s] + {Blk(p, nodeNum)}];
        assert PoolAt(s) == Popped(was[s], nodeNum);
        Changed(s, was);
        r := At(p);
      } else {
        GrownIs(addr, pfnbuf, cs[s], was[s]);
        var k := FindLma(s, nodeNum);
        if k == None {
          assert PoolAt(s) == was[s];
          return OutOfBounds;
        }
        r := LmaAlloc(s, k.value, nodeNum);
      }
    }

    /** lma_alloc: cuts a block from an area if it has room. */
    method LmaAlloc(s: nat, k: nat, nodeNum: nat) returns (r: Outcome)
      requires Valid() && s < SHARE && 0 < nodeNum && k < |lm[s]|
      modifies this`live, this`carved, lm[s][k]
      ensures Valid() && lm == old(lm)
      ensures if old(lm[s][k].left) > nodeNum * NODE_SIZE then
                r == At(old(lm[s][k].alloc)) && PoolAt(s) == Bumped(old(PoolAt(s)), k, nodeNum)
              else r == Null && PoolAt(s) == old(PoolAt(s))
      ensures r.At? ==>
                && r.p == old(lm[s][k].alloc) && lm[s][k].alloc == r.p + 24 * nodeNum
                && lm[s][k].left == old(lm[s][k].left) - 24 * nodeNum
      ensures forall t: nat | t < SHARE && t != s :: PoolAt(t) == old(PoolAt(t))
    {
      hide PoolOk, Bumped;
      if lm[s][k].left <= nodeNum * NODE_SIZE {
        return Null;
      }
      ghost var was := PoolList();
      BumpKeeps(addr, pfnbuf, cs[s], was[s], k, nodeNum);
      var lma := lm[s][k];
      r := At(lma.alloc);
      BumpedIs(was[s], k, nodeNum, lma.alloc);
      lma.alloc := lma.alloc + nodeNum * NODE_SIZE;
      lma.left := lma.left - nodeNum * NODE_SIZE;
      live := live[s := live[s] + {Blk(r.p, nodeNum)}];
      carved := carved[s := carved[s] + {Blk(r.p, nodeNum)}];
      assert PoolAt(s).areas == was[s].areas[k := Area(lma.start, lma.alloc, lma.left)];
      Changed(s, was);
    }

    /** mc_alloc_node. The guard lets a request for exactly CLASSES units pass, which then has no free list; a
        trie never asks for so many (MAX_UNITS). */
    method AllocNode(nodeNum: nat, level: nat) returns (r: Outcome)
      requires Valid()
      modifies this, AreaSet()
      ensures Valid() && fresh(AreaSet() - old(AreaSet()))
      ensures 0 < nodeNum < CLASSES ==>
                (r, PoolAt(ShareOf(level)))
                == Serve(addr, pfnbuf, cs[ShareOf(level)], old(PoolAt(ShareOf(level))), nodeNum)
      ensures forall t: nat | t < SHARE && !(t == ShareOf(level) && r.At?) :: PoolAt(t) == old(PoolAt(t))
      ensures r == Null <==> nodeNum == 0 || nodeNum > 128
      ensures r == OutOfBounds <==>
                nodeNum == 128 || (0 < nodeNum < 128 && old(Exhausted(ShareOf(level), nodeNum)))
      ensures r.At? ==>
                && r.p > 0 && Blk(r.p, nodeNum) !in old(live[ShareOf(level)])
                && live == old(live)[ShareOf(level) := old(live[ShareOf(level)]) + {Blk(r.p, nodeNum)}]
      ensures !r.At? ==> live == old(live)
      ensures r == OutOfBounds && nodeNum != CLASSES ==> Exhausted(ShareOf(level), nodeNum)
      ensures var s := if level == 0 then 0 else if level == 1 then 1 else 2;
              0 < nodeNum < CLASSES && r.At? ==> Answered(old(PoolAt(s)), nodeNum, r, PoolAt(s))
      ensures r.At? ==> forall x | r.p <= x < r.p + 24 * nodeNum :: LevelColor(addr, pfnbuf, level, x)
      ensures SpentAt(ShareOf(level)) <= old(SpentAt(ShareOf(level))) + nodeNum * NODE_SIZE
      ensures forall t: nat | t < SHARE && !(t == ShareOf(level) && r.At?) :: SpentAt(t) == old(SpentAt(t))
    {
      hide PoolOk, Serve, Spent, Capacity, Answered;
      if nodeNum == 0 {
        return Null;
      }
      if nodeNum > CLASSES {
        return Null;
      }
      if nodeNum == CLASSES {
        return OutOfBounds;
      }
      ghost var s := ShareOf(level);
      ghost var p := PoolAt(s);
      ServeFails(addr, pfnbuf, cs[s], p, nodeNum);
      r := LmAlloc(nodeNum, ShareOf(level));
      ServeNotNull(addr, pfnbuf, cs[s], p, nodeNum);
      ServeIs(addr, pfnbuf, cs[s], p, nodeNum);
      if r.At? {
        ServeKeeps(addr, pfnbuf, cs[s], p, nodeNum, r.p);
        forall x | r.p <= x < r.p + 24 * nodeNum ensures LevelColor(addr, pfnbuf, level, x) {
          LiveColors(level, Blk(r.p, nodeNum), x);
        }
      } else {
        ServeFails(addr, pfnbuf, cs[s], PoolAt(s), nodeNum);
      }
      forall t: nat | t < SHARE && t != s ensures live[t] == old(live[t]) {
        assert PoolAt(t).live == old(PoolAt(t)).live;
      }
      assert PoolAt(s).live == live[s];
    }

    /** As long as a share has given out less than this, a request is served. */
    lemma Served(s: nat, nodeNum: nat)
      requires Valid() && s < SHARE && 0 < nodeNum < CLASSES
      requires SpentAt(s) < Capacity(pfnbuf, cs[s]) * (cs[s].size - nodeNum * NODE_SIZE)
      ensures !Exhausted(s, nodeNum)
    {
      hide PoolOk, Capacity, Spent, Serve;
      Enough(addr, pfnbuf, cs[s], PoolAt(s), nodeNum);
      ServeFails(addr, pfnbuf, cs[s], PoolAt(s), nodeNum);
    }

    /** mc_dealloc_node: the caller names a block in use and its size. A size of 0 is put on a list that no
        request looks at, one above the guard is ignored, and for CLASSES itself there is no list: false. */
    method DeallocNode(nodeNum: nat, level: nat, p: nat) returns (ok: bool)
      requires Valid() && (0 < nodeNum < CLASSES ==> Blk(p, nodeNum) in live[ShareOf(level)])
      modifies this
      ensures Valid() && AreaSet() == old(AreaSet()) && ok == (nodeNum != 128)
      ensures nodeNum < 128 ==>
                && PoolAt(ShareOf(level)) == Pushed(old(PoolAt(ShareOf(level))), nodeNum, p)
                && live == old(live)[ShareOf(level) := old(live[ShareOf(level)]) - {Blk(p, nodeNum)}]
      ensures forall t: nat | t < SHARE && !(t == ShareOf(level) && nodeNum < CLASSES) ::
                PoolAt(t) == old(PoolAt(t))
      ensures forall t: nat | t < SHARE :: SpentAt(t) == old(SpentAt(t))
    {
      hide PoolOk, Spent;
      if nodeNum > CLASSES {
        return true;
      }
      if nodeNum == CLASSES {
        return false;
      }
      var s := ShareOf(level);
      ghost var was := PoolList();
      PushKeeps(addr, pfnbuf, cs[s], was[s], nodeNum, p);
      freeHead := freeHead[s := freeHead[s][nodeNum := [p] + freeHead[s][nodeNum]]];
      live := live[s := live[s] - {Blk(p, nodeNum)}];
      assert PoolAt(s) == Pushed(was[s], nodeNum, p);
      Changed(s, was);
      ok := true;
    }

    /** A block in use lies on the colours of its level. */
    lemma LiveColors(level: nat, b: Blk, x: nat)
      requires Valid() && b in live[ShareOf(level)] && b.at <= x < b.at + 24 * b.units
      ensures LevelColor(addr, pfnbuf, level, x)
    {
      hide AreasOk, FreeOk, Accounted, BlocksOk, Shares, LevelColor;
      var s := ShareOf(level);
      assert PoolOk(addr, pfnbuf, cs[s], PoolAt(s));
      BlockColors(addr, pfnbuf, s, PoolAt(s), b, x, level);
    }

    /** Blocks in use never overlap, whatever their shares: a block takes 24 bytes a unit. */
    lemma LiveApart(s: nat, t: nat, b: Blk, c: Blk)
      requires Valid() && s < SHARE && t < SHARE && b in live[s] && c in live[t] && (s, b) != (t, c)
      ensures Disjoint(b, c) && (b.at + 24 * b.units <= c.at || c.at + 24 * c.units <= b.at)
    {
      var p, q := PoolAt(s), PoolAt(t);
      assert PoolOk(addr, pfnbuf, cs[s], p) && PoolOk(addr, pfnbuf, cs[t], q);
      if s != t {
        SharesApart(addr, pfnbuf, s, t, p, q, b, c);
      }
    }

    /** Blocks in use of different shares have no page in common. */
    lemma BlocksOnPages(s: nat, t: nat, b: Blk, c: Blk, x: nat, y: nat)
      requires Valid() && s < SHARE && t < SHARE && s != t && b in live[s] && c in live[t]
      requires b.at <= x < b.at + 24 * b.units && c.at <= y < c.at + 24 * c.units
      ensures addr <= x && addr <= y && (x - addr) / 4096 != (y - addr) / 4096
    {
      hide AreasOk, FreeOk, Accounted, BlocksOk, Shares;
      var p, q := PoolAt(s), PoolAt(t);
      assert PoolOk(addr, pfnbuf, cs[s], p) && PoolOk(addr, pfnbuf, cs[t], q);
      BlockPages(addr, pfnbuf, s, t, p, q, b, c, x, y);
    }

    /** Areas of different shares have no page in common. */
    lemma PagesApart(s: nat, t: nat, i: nat, j: nat, x: nat, y: nat)
      requires Valid() && s < SHARE && t < SHARE && s != t && i < |lm[s]| && j < |lm[t]|
      requires lm[s][i].start <= x < lm[s][i].start + cs[s].size && lm[t][j].start <= y < lm[t][j].start + cs[t].size
      ensures addr <= x && addr <= y && (x - addr) / 4096 != (y - addr) / 4096
    {
      hide BlocksOk, FreeOk, Accounted, Number, ColorAt, Huge, Off, Shares;
      assert PoolOk(addr, pfnbuf, cs[s], PoolAt(s)) && PoolOk(addr, pfnbuf, cs[t], PoolAt(t));
      assert AreaOk(addr, pfnbuf, cs[s], PoolAt(s).areas[i]) && AreaOk(addr, pfnbuf, cs[t], PoolAt(t).areas[j]);
      AreasApart(addr, pfnbuf, pfnbuf[0], s, t, lm[s][i].start, lm[t][j].start, x - addr, y - addr);
    }
  }

  /** The share of a trie level. */
  function ShareOf(level: nat): (s: nat)
    ensures s < SHARE
  {
    if level == 0 then 0 else if level == 1 then 1 else 2
  }

  lemma {:induction false} BumpedIs(p: Pool, k: nat, n: nat, x: nat)
    requires k < |p.areas| && p.areas[k].left > n * NODE_SIZE && x == p.areas[k].alloc
    ensures Bumped(p, k, n)
         == Pool(p.areas[k := Area(p.areas[k].start, x + n * NODE_SIZE, p.areas[k].left - n * NODE_SIZE)], p.free,
                 p.live + {Blk(x, n)}, p.carved + {Blk(x, n)})
  {
  }

  lemma {:induction false} PoppedIs(p: Pool, n: nat)
    requires n < |p.free| && p.free[n] != []
    ensures Popped(p, n) == Pool(p.areas, p.free[n := p.free[n][1..]], p.live + {Blk(p.free[n][0], n)}, p.carved)
  {
  }

  lemma {:induction false} ServeNotNull(base: nat, pfn: seq<nat>, sh: Share, p: Pool, n: nat)
    requires PoolOk(base, pfn, sh, p) && 0 < n < CLASSES
    ensures Serve(base, pfn, sh, p, n).0 != Null
  {
  }
}
