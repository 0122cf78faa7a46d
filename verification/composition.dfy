/** The tries on top of the page-colour allocator: what the tries ask for is what that allocator can serve. */
module Composition {
  import opened Memory
  import opened Colors
  import opened Pools
  import opened MmColor
  import opened Shapes
  import opened Tbm

  /** The places of the blocks of the share s. */
  ghost function LiveOf(at: map<Block, nat>, s: nat): set<Blk> {
    set b | b in at && ShareOf(b.level) == s :: Blk(at[b], b.units)
  }

  /** Every block has a place of its own in the share of its level, and nothing else is in use. */
  ghost predicate Located(live: seq<set<Blk>>, at: map<Block, nat>) {
    && |live| == SHARE && (forall s: nat | s < SHARE :: live[s] == LiveOf(at, s))
    && forall b, d | b in at && d in at && b != d && ShareOf(b.level) == ShareOf(d.level) ::
         Blk(at[b], b.units) != Blk(at[d], d.units)
  }

  lemma {:induction false} LocatedGot(live: seq<set<Blk>>, at: map<Block, nat>, b: Block, p: nat)
    requires Located(live, at) && b !in at && Blk(p, b.units) !in live[ShareOf(b.level)]
    ensures Located(live[ShareOf(b.level) := live[ShareOf(b.level)] + {Blk(p, b.units)}], at[b := p])
  {
    var at' := at[b := p];
    forall s: nat, x | s < SHARE
      ensures x in LiveOf(at', s) <==> x in LiveOf(at, s) || (s == ShareOf(b.level) && x == Blk(p, b.units))
    {
      if x in LiveOf(at, s) {
        var d :| d in at && ShareOf(d.level) == s && x == Blk(at[d], d.units);
        assert d in at' && x == Blk(at'[d], d.units);
      }
      if s == ShareOf(b.level) && x == Blk(p, b.units) {
        assert b in at' && x == Blk(at'[b], b.units);
      }
    }
  }

  lemma {:induction false} LocatedGave(live: seq<set<Blk>>, at: map<Block, nat>, b: Block)
    requires Located(live, at) && b in at
    ensures Blk(at[b], b.units) in live[ShareOf(b.level)]
    ensures Located(live[ShareOf(b.level) := live[ShareOf(b.level)] - {Blk(at[b], b.units)}], at - {b})
  {
    var at' := at - {b};
    forall s: nat, x | s < SHARE
      ensures x in LiveOf(at', s) <==>
                x in LiveOf(at, s) && !(s == ShareOf(b.level) && x == Blk(at[b], b.units))
    {
      if x in LiveOf(at, s) && !(s == ShareOf(b.level) && x == Blk(at[b], b.units)) {
        var d :| d in at && ShareOf(d.level) == s && x == Blk(at[d], d.units);
        assert d in at' && x == Blk(at'[d], d.units);
      }
    }
    assert Blk(at[b], b.units) in LiveOf(at, ShareOf(b.level));
  }

  /** The bytes got for levels of the share s. */
  ghost function BytesGot(log: seq<Call>, s: nat): nat {
    if log == [] then 0
    else
      var x := log[|log| - 1];
      BytesGot(log[..|log| - 1], s) + if x.Got? && ShareOf(x.b.level) == s then x.b.units * NODE_SIZE else 0
  }

  lemma {:induction false} BytesMono(log: seq<Call>, i: nat, s: nat)
    requires i <= |log|
    ensures BytesGot(log[..i], s) <= BytesGot(log, s)
  {
    if i < |log| {
      BytesMono(log[..|log| - 1], i, s);
      assert log[..|log| - 1][..i] == log[..i];
    } else {
      assert log[..i] == log;
    }
  }

  /** What one call finds in a legal log. */
  lemma {:induction false} NextCall(log: seq<Call>, i: nat)
    requires Legal(log) && i < |log|
    ensures Legal(log[..i]) && log[..i + 1] == log[..i] + [log[i]] && log[..i + 1][..i] == log[..i]
    ensures log[i].Got? ==> log[i].b !in InUse(log[..i]) && 0 < log[i].b.units <= MAX_UNITS
    ensures log[i].Gave? ==> log[i].b in InUse(log[..i])
    ensures InUse(log[..i + 1])
         == if log[i].Got? then InUse(log[..i]) + {log[i].b} else InUse(log[..i]) - {log[i].b}
    decreases |log|
  {
    LegalTo(log, i + 1);
    assert log[..i + 1] == log[..i] + [log[i]];
    LegalMore(log[..i], log[i]);
  }

  lemma {:induction false} LegalTo(log: seq<Call>, i: nat)
    requires Legal(log) && i <= |log|
    ensures Legal(log[..i])
    decreases |log|
  {
    if i < |log| {
      LegalTo(log[..|log| - 1], i);
      assert log[..|log| - 1][..i] == log[..i];
    } else {
      assert log[..i] == log;
    }
  }

  lemma {:induction false} SizesPositive(log: seq<Call>)
    requires Legal(log)
    ensures forall b | b in InUse(log) :: 0 < b.units <= MAX_UNITS
  {
    if log != [] { SizesPositive(log[..|log| - 1]); }
  }

  /** The state after the first i calls. */
  ghost predicate Replayed(c: McPriv, log: seq<Call>, i: nat, at: map<Block, nat>)
    reads c, c.AreaSet()
  {
    && c.Valid() && i <= |log| && at.Keys == InUse(log[..i]) && Located(c.live, at)
    && forall s: nat | s < SHARE :: c.SpentAt(s) <= BytesGot(log[..i], s)
  }

  lemma {:induction false} ReplayStarts(c: McPriv, log: seq<Call>)
    requires c.Valid() && c.live == [{}, {}, {}] && forall s: nat | s < SHARE :: c.SpentAt(s) == 0
    ensures Replayed(c, log, 0, map[])
  {
    assert log[..0] == [];
    forall s: nat | s < SHARE ensures c.live[s] == LiveOf(map[], s) {
    }
  }

  /** What the next call finds. */
  lemma {:induction false} ReplayHere(c: McPriv, log: seq<Call>, i: nat, at: map<Block, nat>) returns (spent: seq<int>)
    requires Replayed(c, log, i, at) && i < |log| && Legal(log)
    ensures c.Valid() && at.Keys == InUse(log[..i]) && Located(c.live, at) && |c.live| == SHARE == |spent|
    ensures forall s: nat | s < SHARE :: spent[s] == c.SpentAt(s) && spent[s] <= BytesGot(log[..i], s)
    ensures log[i].Got? ==> log[i].b !in at && 0 < log[i].b.units < CLASSES == 128
    ensures log[i].Gave? ==> log[i].b in at && 0 < log[i].b.units < CLASSES == 128
    ensures log[i].Gave? ==> Blk(at[log[i].b], log[i].b.units) in c.live[ShareOf(log[i].b.level)]
  {
    hide PoolOk, Legal, InUse, Shares, BytesGot, Spent;
    NextCall(log, i);
    SizesPositive(log[..i]);
    if log[i].Gave? { LocatedGave(c.live, at, log[i].b); }
    spent := [c.SpentAt(0), c.SpentAt(1), c.SpentAt(2)];
  }

  lemma {:induction false} ReplayGot(c: McPriv, log: seq<Call>, i: nat, at: map<Block, nat>, p: nat,
                                     live: seq<set<Blk>>, spent: seq<int>)
    requires c.Valid() && i < |log| && Legal(log) && log[i].Got? && log[i].b !in at && at.Keys == InUse(log[..i])
    requires Located(live, at) && |spent| == SHARE && forall s: nat | s < SHARE :: spent[s] <= BytesGot(log[..i], s)
    requires Blk(p, log[i].b.units) !in live[ShareOf(log[i].b.level)]
    requires c.live == live[ShareOf(log[i].b.level) := live[ShareOf(log[i].b.level)] + {Blk(p, log[i].b.units)}]
    requires c.SpentAt(ShareOf(log[i].b.level)) <= spent[ShareOf(log[i].b.level)] + log[i].b.units * NODE_SIZE
    requires forall s: nat | s < SHARE && s != ShareOf(log[i].b.level) :: c.SpentAt(s) == spent[s]
    ensures Replayed(c, log, i + 1, at[log[i].b := p])
  {
    NextCall(log, i);
    LocatedGot(live, at, log[i].b, p);
  }

  lemma {:induction false} ReplayStays(c: McPriv, log: seq<Call>, i: nat, at: map<Block, nat>,
                                       live: seq<set<Blk>>, spent: seq<int>)
    requires c.Valid() && i < |log| && at.Keys == InUse(log[..i]) && Located(live, at) && c.live == live
    requires |spent| == SHARE && forall s: nat | s < SHARE :: spent[s] <= BytesGot(log[..i], s)
    requires forall s: nat | s < SHARE :: c.SpentAt(s) == spent[s]
    ensures Replayed(c, log, i, at)
  {
  }

  lemma {:induction false} ReplayGave(c: McPriv, log: seq<Call>, i: nat, at: map<Block, nat>,
                                      live: seq<set<Blk>>, spent: seq<int>)
    requires c.Valid() && i < |log| && Legal(log) && log[i].Gave? && log[i].b in at && at.Keys == InUse(log[..i])
    requires Located(live, at) && |spent| == SHARE && forall s: nat | s < SHARE :: spent[s] <= BytesGot(log[..i], s)
    requires var b := log[i].b;
             c.live == live[ShareOf(b.level) := live[ShareOf(b.level)] - {Blk(at[b], b.units)}]
    requires forall s: nat | s < SHARE :: c.SpentAt(s) == spent[s]
    ensures Replayed(c, log, i + 1, at - {log[i].b})
  {
    NextCall(log, i);
    LocatedGave(live, at, log[i].b);
  }

  /** Every legal log of calls is a legal run of the page-colour allocator: all preconditions of its calls are
      met, up to the point where a share has used up all its areas, if there is such a point. */
  method Replay(c: McPriv, log: seq<Call>) returns (n: nat, at: map<Block, nat>)
    requires c.Valid() && Legal(log) && c.live == [{}, {}, {}] && forall s: nat | s < SHARE :: c.SpentAt(s) == 0
    modifies c, c.AreaSet()
    ensures Replayed(c, log, n, at)
    ensures n < |log| ==>
              && log[n].Got? && 0 < log[n].b.units < CLASSES
              && c.Exhausted(ShareOf(log[n].b.level), log[n].b.units)
  {
    hide *;
    n, at := 0, map[];
    ReplayStarts(c, log);
    while n < |log|
      invariant n <= |log| && Replayed(c, log, n, at) && fresh(c.AreaSet() - old(c.AreaSet()))
    {
      ghost var live, areas := c.live, c.AreaSet();
      ghost var spent := ReplayHere(c, log, n, at);
      var b := log[n].b;
      if log[n].Got? {
        label before:
        var r := c.AllocNode(b.units, b.level);
        ghost var own := c.AreaSet();
        forall o | o in own && o !in old(c.AreaSet()) ensures fresh(o) {
          if o !in areas { assert fresh@before(o); }
        }
        if !r.At? {
          ReplayStays(c, log, n, at, live, spent);
          return;
        }
        ReplayGot(c, log, n, at, r.p, live, spent);
        at := at[b := r.p];
      } else {
        var ok := c.DeallocNode(b.units, b.level, at[b]);
        ReplayGave(c, log, n, at, live, spent);
        at := at - {b};
      }
      n := n + 1;
    }
  }

  /** The blocks in use never overlap. */
  lemma {:induction false} BlocksApart(c: McPriv, log: seq<Call>, i: nat, at: map<Block, nat>, b: Block, d: Block)
    requires Replayed(c, log, i, at) && b in InUse(log[..i]) && d in InUse(log[..i]) && b != d
    ensures |c.live| == SHARE && b in at && d in at && Blk(at[b], b.units) in c.live[ShareOf(b.level)]
    ensures at[b] + 24 * b.units <= at[d] || at[d] + 24 * d.units <= at[b]
  {
    hide PoolOk, Disjoint, BytesGot, Spent;
    var s, t := ShareOf(b.level), ShareOf(d.level);
    assert Blk(at[b], b.units) in LiveOf(at, s) && Blk(at[d], d.units) in LiveOf(at, t);
    c.LiveApart(s, t, Blk(at[b], b.units), Blk(at[d], d.units));
  }

  /** A log that does not ask for more than this for any share is replayed to its end. */
  lemma {:induction false} ReplayEnds(c: McPriv, log: seq<Call>, n: nat, at: map<Block, nat>)
    requires Replayed(c, log, n, at) && Legal(log)
    requires n < |log| ==>
               log[n].Got? && log[n].b.units < CLASSES && c.Exhausted(ShareOf(log[n].b.level), log[n].b.units)
    requires forall s: nat | s < SHARE ::
               BytesGot(log, s) < Capacity(c.pfnbuf, c.cs[s]) * (c.cs[s].size - MAX_UNITS * NODE_SIZE)
    ensures n == |log|
  {
    hide PoolOk, BytesGot, Spent, Capacity, Legal, InUse;
    if n < |log| {
      var b := log[n].b;
      var s := ShareOf(b.level);
      NextCall(log, n);
      BytesMono(log, n, s);
      MoreRoom(Capacity(c.pfnbuf, c.cs[s]), c.cs[s].size, b.units);
      c.Served(s, b.units);
      assert false;
    }
  }

  lemma {:induction false} MoreRoom(k: nat, size: nat, units: nat)
    requires units <= MAX_UNITS
    ensures k * (size - MAX_UNITS * NODE_SIZE) <= k * (size - units * NODE_SIZE)
  {
  }

  /** The table on top of the allocator: once its calls are replayed, the blocks of all nodes of the slot tries
      have places, each in the share of its level, and no two of them overlap. */
  lemma {:induction false} TableApart(t: TbmTrie, c: McPriv, at: map<Block, nat>, b: Block, d: Block)
    requires t.Valid() && Replayed(c, t.m.log, |t.m.log|, at) && b != d
    requires b in KidsFoot(t.shapes) && b.units > 0 && d in KidsFoot(t.shapes) && d.units > 0
    ensures |c.live| == SHARE && b in at && d in at
    ensures Blk(at[b], b.units) in c.live[ShareOf(b.level)]
    ensures at[b] + 24 * b.units <= at[d] || at[d] + 24 * d.units <= at[b]
  {
    hide *;
    var log := t.m.log;
    t.RunLegal();
    assert log[..|log|] == log;
    BlocksApart(c, log, |log|, at, b, d);
  }

  /** And each lies on the colours of its level: two for the roots, five for the nodes below them, one for all
      others. */
  lemma {:induction false} TableColors(t: TbmTrie, c: McPriv, at: map<Block, nat>, b: Block, x: nat)
    requires t.Valid() && Replayed(c, t.m.log, |t.m.log|, at) && b in KidsFoot(t.shapes) && b.units > 0
    ensures b in at && |c.pfnbuf| > 0
    ensures at[b] <= x < at[b] + 24 * b.units ==> LevelColor(c.addr, c.pfnbuf, b.level, x)
  {
    hide *;
    var log := t.m.log;
    t.RunLegal();
    assert log[..|log|] == log;
    BlockLive(c, log, |log|, at, b);
    if at[b] <= x < at[b] + 24 * b.units {
      c.LiveColors(b.level, Blk(at[b], b.units), x);
    }
  }

  lemma {:induction false} BlockLive(c: McPriv, log: seq<Call>, i: nat, at: map<Block, nat>, b: Block)
    requires Replayed(c, log, i, at) && b in InUse(log[..i])
    ensures c.Valid() && |c.live| == SHARE && |c.pfnbuf| > 0
    ensures b in at && Blk(at[b], b.units) in c.live[ShareOf(b.level)]
  {
    hide PoolOk, BytesGot, Spent;
    assert Blk(at[b], b.units) in LiveOf(at, ShareOf(b.level));
  }

  /** So no page of 4096 bytes holds parts of blocks of levels 0 and 1, or of one of them and a deeper level. */
  lemma {:induction false} LevelsApart(t: TbmTrie, c: McPriv, at: map<Block, nat>, b: Block, d: Block, x: nat, y: nat)
    requires t.Valid() && Replayed(c, t.m.log, |t.m.log|, at)
    requires b.level != d.level && (b.level < 2 || d.level < 2)
    requires b in KidsFoot(t.shapes) && b.units > 0 && d in KidsFoot(t.shapes) && d.units > 0
    ensures b in at && d in at
    ensures at[b] <= x < at[b] + 24 * b.units && at[d] <= y < at[d] + 24 * d.units ==>
              c.addr <= x && c.addr <= y && (x - c.addr) / 4096 != (y - c.addr) / 4096
  {
    hide *;
    var log := t.m.log;
    t.RunLegal();
    assert log[..|log|] == log;
    BlockLive(c, log, |log|, at, b);
    BlockLive(c, log, |log|, at, d);
    OtherShare(b.level, d.level);
    if at[b] <= x < at[b] + 24 * b.units && at[d] <= y < at[d] + 24 * d.units {
      c.BlocksOnPages(ShareOf(b.level), ShareOf(d.level), Blk(at[b], b.units), Blk(at[d], d.units), x, y);
    }
  }

  lemma {:induction false} OtherShare(a: nat, b: nat)
    requires a != b && (a < 2 || b < 2)
    ensures ShareOf(a) != ShareOf(b)
  {
  }
}
