/** Where the areas of the page-colour allocator lie (lib/mm_color.c): huge pages, pages, colours. */
module Colors {

  const PAGE_SIZE: nat := 4096
  const HPAGE_SIZE: nat := 2097152
  const CACHE_OVERLAP: nat := 32768
  const PAGE_COLORS: nat := 8
  const SHARE: nat := 3
  /** Length of a free-list array, and the guard of the two entry points. */
  const CLASSES: nat := 128

  /** struct cache_share. */
  datatype Share = Share(pageColor: nat, size: nat)

  /** struct lm_area: [start, alloc) is given out, `left` bytes are not. */
  datatype Area = Area(start: nat, alloc: nat, left: nat)

  /** The huge page of an offset from the base, and the offset within it. */
  function Huge(x: nat): nat {
    x / HPAGE_SIZE
  }

  function Off(x: nat): nat {
    x % HPAGE_SIZE
  }

  /** The colour of the page at an offset from the base: pages of a huge page are contiguous frames. */
  function ColorAt(pfn: seq<nat>, x: nat): (c: nat)
    requires Huge(x) < |pfn|
    ensures c < PAGE_COLORS
  {
    (pfn[Huge(x)] + Off(x) / PAGE_SIZE) % PAGE_COLORS
  }

  /** The page an offset lies on. */
  function PageOf(x: nat): nat {
    x / PAGE_SIZE
  }

  predicate ShareOk(sh: Share) {
    sh.pageColor < PAGE_COLORS && 0 < sh.size <= 5 * PAGE_SIZE && sh.size % PAGE_SIZE == 0
  }

  /** The area starts on a page of its share's colour and stays on one huge page of the mapping. */
  predicate PlacedOk(base: nat, pfn: seq<nat>, sh: Share, start: nat) {
    && base <= start && (start - base) % PAGE_SIZE == 0
    && Huge(start - base) < |pfn| && Off(start - base) + sh.size < HPAGE_SIZE
    && ColorAt(pfn, start - base) == sh.pageColor
  }

  predicate AreaOk(base: nat, pfn: seq<nat>, sh: Share, a: Area) {
    PlacedOk(base, pfn, sh, a.start) && a.start <= a.alloc && a.alloc + a.left == a.start + sh.size
  }

  // ----- lma_init ---------------------------------------------------------------------

  function NewPage(base: nat, sh: Share, last: nat): nat
    requires base <= last
  {
    Huge(last + CACHE_OVERLAP + sh.size - base)
  }

  /** The start of the area after the one that starts at `last`. */
  function NewStart(base: nat, pfn: seq<nat>, sh: Share, last: nat): nat
    requires base <= last && NewPage(base, sh, last) < |pfn|
  {
    var lastPage, newPage := Huge(last - base), NewPage(base, sh, last);
    if newPage != lastPage then
      var startColor := pfn[newPage] % PAGE_COLORS;
      if startColor < sh.pageColor then
        base + newPage * HPAGE_SIZE + (sh.pageColor - startColor) * PAGE_SIZE
      else if startColor > sh.pageColor then
        base + newPage * HPAGE_SIZE + (PAGE_COLORS + sh.pageColor - startColor) * PAGE_SIZE
      else
        base + newPage * HPAGE_SIZE
    else
      last + CACHE_OVERLAP
  }

  lemma {:induction false} HugeIs(h: nat, r: nat)
    requires r < HPAGE_SIZE
    ensures Huge(h * HPAGE_SIZE + r) == h && Off(h * HPAGE_SIZE + r) == r
  {
  }

  /** A start k pages into huge page h. */
  lemma {:induction false} PlacedOn(base: nat, pfn: seq<nat>, sh: Share, h: nat, k: nat)
    requires ShareOk(sh) && h < |pfn| && k < 500 && (pfn[h] + k) % PAGE_COLORS == sh.pageColor
    ensures PlacedOk(base, pfn, sh, base + h * HPAGE_SIZE + k * PAGE_SIZE)
  {
    HugeIs(h, k * PAGE_SIZE);
    assert k * PAGE_SIZE / PAGE_SIZE == k;
    assert HPAGE_SIZE == 512 * PAGE_SIZE;
    assert h * HPAGE_SIZE + k * PAGE_SIZE == (512 * h + k) * PAGE_SIZE;
  }

  lemma {:induction false} NextHuge(base: nat, sh: Share, last: nat)
    requires ShareOk(sh) && base <= last && Off(last - base) + sh.size < HPAGE_SIZE
    ensures Huge(last - base) <= NewPage(base, sh, last) <= Huge(last - base) + 1
    ensures NewPage(base, sh, last) != Huge(last - base) ==>
              last + sh.size <= base + NewPage(base, sh, last) * HPAGE_SIZE
  {
  }

  /** The same huge page, as many pages further as there are colours. */
  lemma {:induction false} PlacedNext(base: nat, pfn: seq<nat>, sh: Share, last: nat)
    requires ShareOk(sh) && PlacedOk(base, pfn, sh, last) && NewPage(base, sh, last) == Huge(last - base)
    ensures PlacedOk(base, pfn, sh, last + CACHE_OVERLAP)
  {
    var x := last - base;
    HugeIs(Huge(x), Off(x) + CACHE_OVERLAP);
    assert (Off(x) + CACHE_OVERLAP) / PAGE_SIZE == Off(x) / PAGE_SIZE + PAGE_COLORS;
  }

  /** The new area has the colour of its share, stays on one huge page, and begins after the last one ends. */
  lemma {:induction false} NewStartOk(base: nat, pfn: seq<nat>, sh: Share, last: nat)
    requires ShareOk(sh) && PlacedOk(base, pfn, sh, last) && NewPage(base, sh, last) < |pfn|
    ensures PlacedOk(base, pfn, sh, NewStart(base, pfn, sh, last))
    ensures last + sh.size <= NewStart(base, pfn, sh, last)
  {
    hide ColorAt, NewPage, Huge, Off;
    var h := NewPage(base, sh, last);
    NextHuge(base, sh, last);
    if h != Huge(last - base) {
      var c := pfn[h] % PAGE_COLORS;
      var k := if c <= sh.pageColor then sh.pageColor - c else PAGE_COLORS + sh.pageColor - c;
      ColorShift(pfn[h], k, sh.pageColor);
      PlacedOn(base, pfn, sh, h, k);
      assert NewStart(base, pfn, sh, last) == base + h * HPAGE_SIZE + k * PAGE_SIZE;
    } else {
      PlacedNext(base, pfn, sh, last);
    }
  }

  lemma {:induction false} ColorShift(f: nat, k: nat, c: nat)
    requires c < PAGE_COLORS
    requires k == if f % PAGE_COLORS <= c then c - f % PAGE_COLORS else PAGE_COLORS + c - f % PAGE_COLORS
    ensures (f + k) % PAGE_COLORS == c
  {
  }

  // ----- how many areas there are -----------------------------------------------------

  /** How many pages of huge page h come before the first one of the colour of the share. */
  function Lead(pfn: seq<nat>, sh: Share, h: nat): nat
    requires h < |pfn|
  {
    (sh.pageColor + PAGE_COLORS - pfn[h] % PAGE_COLORS) % PAGE_COLORS
  }

  /** The areas of the share on huge page h: one for each stretch of CACHE_OVERLAP bytes, but the last
      one has to end before the huge page does. */
  function AreasOn(pfn: seq<nat>, sh: Share, h: nat): nat
    requires h < |pfn|
  {
    if Lead(pfn, sh, h) * PAGE_SIZE + sh.size < CACHE_OVERLAP then 64 else 63
  }

  function AreasBefore(pfn: seq<nat>, sh: Share, h: nat): nat
    requires h <= |pfn|
  {
    if h == 0 then 0 else AreasBefore(pfn, sh, h - 1) + AreasOn(pfn, sh, h - 1)
  }

  /** All areas the share can ever have. */
  function Capacity(pfn: seq<nat>, sh: Share): nat {
    AreasBefore(pfn, sh, |pfn|)
  }

  /** How many areas of the share come before the one at `start`. */
  function Number(base: nat, pfn: seq<nat>, sh: Share, start: nat): nat
    requires base <= start && Huge(start - base) < |pfn|
  {
    AreasBefore(pfn, sh, Huge(start - base)) + Off(start - base) / CACHE_OVERLAP
  }

  lemma {:induction false} BeforeMono(pfn: seq<nat>, sh: Share, g: nat, h: nat)
    requires g <= h <= |pfn|
    ensures AreasBefore(pfn, sh, g) + 63 * (h - g) <= AreasBefore(pfn, sh, h)
         <= AreasBefore(pfn, sh, g) + 64 * (h - g)
  {
    if g < h { BeforeMono(pfn, sh, g, h - 1); }
  }

  /** 63 or 64 areas on each huge page. */
  lemma {:induction false} CapacityBounds(pfn: seq<nat>, sh: Share)
    ensures 63 * |pfn| <= Capacity(pfn, sh) <= 64 * |pfn|
  {
    BeforeMono(pfn, sh, 0, |pfn|);
  }

  /** The pages of a colour on a huge page lie PAGE_COLORS apart, behind the first. */
  lemma {:induction false} LeadIs(f: nat, k: nat, c: nat, lead: nat)
    requires c < PAGE_COLORS && (f + k) % PAGE_COLORS == c
    requires lead == (c + PAGE_COLORS - f % PAGE_COLORS) % PAGE_COLORS
    ensures k == k / PAGE_COLORS * PAGE_COLORS + lead
  {
  }

  /** Where a well-placed area lies on its huge page. */
  lemma {:induction false} OnGrid(base: nat, pfn: seq<nat>, sh: Share, start: nat)
    requires ShareOk(sh) && PlacedOk(base, pfn, sh, start)
    ensures Off(start - base) == Off(start - base) / CACHE_OVERLAP * CACHE_OVERLAP
                                 + Lead(pfn, sh, Huge(start - base)) * PAGE_SIZE
    ensures Off(start - base) / CACHE_OVERLAP < AreasOn(pfn, sh, Huge(start - base))
  {
    var x := start - base;
    var k := Off(x) / PAGE_SIZE;
    PageSplit(x);
    assert Off(x) == k * PAGE_SIZE;
    LeadIs(pfn[Huge(x)], k, sh.pageColor, Lead(pfn, sh, Huge(x)));
    assert CACHE_OVERLAP == PAGE_COLORS * PAGE_SIZE;
    assert Off(x) / CACHE_OVERLAP == k / PAGE_COLORS;
  }

  /** lma_init goes from each area to the next one: none is skipped, and it leaves the mapping exactly
      behind the last. */
  lemma {:induction false} NumberNext(base: nat, pfn: seq<nat>, sh: Share, last: nat)
    requires ShareOk(sh) && PlacedOk(base, pfn, sh, last)
    ensures NewPage(base, sh, last) < |pfn| <==> Number(base, pfn, sh, last) + 1 < Capacity(pfn, sh)
    ensures NewPage(base, sh, last) < |pfn| ==>
              Number(base, pfn, sh, NewStart(base, pfn, sh, last)) == Number(base, pfn, sh, last) + 1
  {
    hide NewPage, NewStart, Off, AreasOn, ColorAt;
    var h := Huge(last - base);
    NextHuge(base, sh, last);
    OnGrid(base, pfn, sh, last);
    BeforeMono(pfn, sh, h + 1, |pfn|);
    if NewPage(base, sh, last) < |pfn| {
      var next := NewStart(base, pfn, sh, last);
      NewStartOk(base, pfn, sh, last);
      OnGrid(base, pfn, sh, next);
      BeforeMono(pfn, sh, Huge(next - base) + 1, |pfn|);
      if NewPage(base, sh, last) == h {
        SameOn(base, pfn, sh, last);
      } else {
        LastOn(base, pfn, sh, last);
        FirstOn(base, pfn, sh, last);
      }
    } else {
      LastOn(base, pfn, sh, last);
    }
  }

  lemma {:induction false} NumberBelow(base: nat, pfn: seq<nat>, sh: Share, start: nat)
    requires ShareOk(sh) && PlacedOk(base, pfn, sh, start)
    ensures Number(base, pfn, sh, start) < Capacity(pfn, sh)
  {
    hide AreasOn, ColorAt, Off;
    OnGrid(base, pfn, sh, start);
    BeforeMono(pfn, sh, Huge(start - base) + 1, |pfn|);
  }

  lemma {:induction false} SameOn(base: nat, pfn: seq<nat>, sh: Share, last: nat)
    requires ShareOk(sh) && PlacedOk(base, pfn, sh, last) && NewPage(base, sh, last) == Huge(last - base)
    ensures NewStart(base, pfn, sh, last) == last + CACHE_OVERLAP
    ensures Huge(last + CACHE_OVERLAP - base) == Huge(last - base)
    ensures Off(last + CACHE_OVERLAP - base) / CACHE_OVERLAP == Off(last - base) / CACHE_OVERLAP + 1
  {
    HugeIs(Huge(last - base), Off(last - base) + CACHE_OVERLAP);
  }

  /** Behind the last area of a huge page the next one is begun. */
  lemma {:induction false} LastOn(base: nat, pfn: seq<nat>, sh: Share, last: nat)
    requires ShareOk(sh) && PlacedOk(base, pfn, sh, last) && NewPage(base, sh, last) != Huge(last - base)
    ensures Off(last - base) / CACHE_OVERLAP + 1 == AreasOn(pfn, sh, Huge(last - base))
  {
    OnGrid(base, pfn, sh, last);
  }

  lemma {:induction false} FirstOn(base: nat, pfn: seq<nat>, sh: Share, last: nat)
    requires ShareOk(sh) && PlacedOk(base, pfn, sh, last) && NewPage(base, sh, last) < |pfn|
    requires NewPage(base, sh, last) != Huge(last - base)
    ensures base <= NewStart(base, pfn, sh, last)
    ensures Huge(NewStart(base, pfn, sh, last) - base) == NewPage(base, sh, last)
    ensures Off(NewStart(base, pfn, sh, last) - base) / CACHE_OVERLAP == 0
  {
    hide ColorAt, Huge, Off;
    var h := NewPage(base, sh, last);
    var c := pfn[h] % PAGE_COLORS;
    var k := if c <= sh.pageColor then sh.pageColor - c else PAGE_COLORS + sh.pageColor - c;
    assert NewStart(base, pfn, sh, last) == base + h * HPAGE_SIZE + k * PAGE_SIZE;
    HugeIs(h, k * PAGE_SIZE);
  }

  // ----- the shares -------------------------------------------------------------------

  /** The shares that mc_init sets up: 2, 5 and 1 pages, one after the other. */
  function Shares(pfn0: nat): (cs: seq<Share>)
    ensures |cs| == SHARE && forall i | 0 <= i < SHARE :: ShareOk(cs[i])
  {
    var c0 := pfn0 % PAGE_COLORS;
    var c1 := (c0 + 2) % PAGE_COLORS;
    var c2 := (c1 + 5) % PAGE_COLORS;
    [Share(c0, 2 * PAGE_SIZE), Share(c1, 5 * PAGE_SIZE), Share(c2, PAGE_SIZE)]
  }

  /** The colour of the page j of an area of the share. */
  function ColorOf(sh: Share, j: nat): nat {
    (sh.pageColor + j) % PAGE_COLORS
  }

  /** The colour is one of those that the share uses. */
  predicate HasColor(sh: Share, c: nat) {
    exists j: nat :: j < sh.size / PAGE_SIZE && c == ColorOf(sh, j)
  }

  /** The share of a colour: d is how far it lies above the first one. */
  lemma {:induction false} SharesOf(pfn0: nat, c: nat, d: nat)
    requires c < PAGE_COLORS && d == (c + PAGE_COLORS - pfn0 % PAGE_COLORS) % PAGE_COLORS
    ensures HasColor(Shares(pfn0)[0], c) <==> d < 2
    ensures HasColor(Shares(pfn0)[1], c) <==> 2 <= d < 7
    ensures HasColor(Shares(pfn0)[2], c) <==> d == 7
  {
    hide HasColor;
    var cs, c0 := Shares(pfn0), pfn0 % PAGE_COLORS;
    ShareColors(cs[0], c0, c, d, 0, 2);
    ShareColors(cs[1], c0, c, d, 2, 5);
    assert cs[2].pageColor == (c0 + 7) % PAGE_COLORS by { ColorAdd(c0 + 2, 5); }
    ShareColors(cs[2], c0, c, d, 7, 1);
  }

  /** A share of n pages whose first colour is k above the first of all. */
  lemma {:induction false} ShareColors(sh: Share, c0: nat, c: nat, d: nat, k: nat, n: nat)
    requires c0 < PAGE_COLORS && c < PAGE_COLORS && d == (c + PAGE_COLORS - c0) % PAGE_COLORS
    requires k + n <= PAGE_COLORS && 0 < n <= 5 && sh.pageColor == (c0 + k) % PAGE_COLORS && sh.size == n * PAGE_SIZE
    ensures HasColor(sh, c) <==> k <= d < k + n
  {
    hide HasColor;
    ColorRange(sh, c, n);
    Distance(c0, c, k);
    assert (d + PAGE_COLORS - k) % PAGE_COLORS == if d >= k then d - k else d + PAGE_COLORS - k;
  }

  /** The distance from a colour k further on. */
  lemma {:induction false} Distance(c0: nat, c: nat, k: nat)
    requires c0 < PAGE_COLORS && c < PAGE_COLORS && k < PAGE_COLORS
    ensures (c + PAGE_COLORS - (c0 + k) % PAGE_COLORS) % PAGE_COLORS
         == ((c + PAGE_COLORS - c0) % PAGE_COLORS + PAGE_COLORS - k) % PAGE_COLORS
  {
  }

  /** The shares partition the colours. */
  lemma {:induction false} Partition(pfn0: nat, c: nat)
    requires c < PAGE_COLORS
    ensures exists i :: 0 <= i < SHARE && HasColor(Shares(pfn0)[i], c)
    ensures forall i, j | 0 <= i < SHARE && 0 <= j < SHARE ::
              HasColor(Shares(pfn0)[i], c) && HasColor(Shares(pfn0)[j], c) ==> i == j
  {
    hide HasColor;
    var d := (c + PAGE_COLORS - pfn0 % PAGE_COLORS) % PAGE_COLORS;
    SharesOf(pfn0, c, d);
    assert d < 2 || 2 <= d < 7 || d == 7;
    assert HasColor(Shares(pfn0)[0], c) || HasColor(Shares(pfn0)[1], c) || HasColor(Shares(pfn0)[2], c);
  }

  lemma {:induction false} ColorRange(sh: Share, c: nat, n: nat)
    requires sh.pageColor < PAGE_COLORS && c < PAGE_COLORS && sh.size == n * PAGE_SIZE && n <= 5
    ensures HasColor(sh, c) <==> (c + PAGE_COLORS - sh.pageColor) % PAGE_COLORS < n
  {
    var d := (c + PAGE_COLORS - sh.pageColor) % PAGE_COLORS;
    assert sh.size / PAGE_SIZE == n;
    assert c == ColorOf(sh, d);
  }

  /** r bytes further on the same huge page the colour is that many pages further. */
  lemma {:induction false} ColorStep(pfn: seq<nat>, h: nat, k: nat, r: nat)
    requires h < |pfn| && k * PAGE_SIZE + r < HPAGE_SIZE
    ensures Huge(h * HPAGE_SIZE + k * PAGE_SIZE + r) == h
    ensures ColorAt(pfn, h * HPAGE_SIZE + k * PAGE_SIZE + r) == (pfn[h] + k + r / PAGE_SIZE) % PAGE_COLORS
  {
    HugeIs(h, k * PAGE_SIZE + r);
    assert h * HPAGE_SIZE + k * PAGE_SIZE + r == h * HPAGE_SIZE + (k * PAGE_SIZE + r);
    assert (k * PAGE_SIZE + r) / PAGE_SIZE == k + r / PAGE_SIZE;
  }

  lemma {:induction false} ColorAdd(f: nat, j: nat)
    ensures (f + j) % PAGE_COLORS == (f % PAGE_COLORS + j) % PAGE_COLORS
  {
  }

  lemma {:induction false} PageSplit(s: nat)
    requires s % PAGE_SIZE == 0
    ensures Off(s) % PAGE_SIZE == 0 && s == Huge(s) * HPAGE_SIZE + Off(s) / PAGE_SIZE * PAGE_SIZE
  {
    assert s == Huge(s) * HPAGE_SIZE + Off(s);
    assert HPAGE_SIZE == 512 * PAGE_SIZE;
    assert Off(s) == s - 512 * Huge(s) * PAGE_SIZE;
  }

  lemma {:induction false} PageCount(r: nat, size: nat)
    requires r < size && size % PAGE_SIZE == 0
    ensures r / PAGE_SIZE < size / PAGE_SIZE
  {
  }

  /** Every page of an area has one of the colours of its share. */
  lemma {:induction false} AreaColors(base: nat, pfn: seq<nat>, sh: Share, start: nat, x: nat)
    requires ShareOk(sh) && PlacedOk(base, pfn, sh, start) && start - base <= x < start - base + sh.size
    ensures Huge(x) < |pfn| && HasColor(sh, ColorAt(pfn, x))
  {
    hide ColorAt, Off, Huge;
    var s := start - base;
    var h, k, r := Huge(s), Off(s) / PAGE_SIZE, x - s;
    PageSplit(s);
    ColorStep(pfn, h, k, 0);
    ColorStep(pfn, h, k, r);
    PageCount(r, sh.size);
    ColorAdd(pfn[h] + k, r / PAGE_SIZE);
    assert ColorAt(pfn, x) == ColorOf(sh, r / PAGE_SIZE);
  }

  lemma {:induction false} SamePage(x: nat, y: nat)
    requires PageOf(x) == PageOf(y)
    ensures Huge(x) == Huge(y) && Off(x) / PAGE_SIZE == Off(y) / PAGE_SIZE
  {
    assert HPAGE_SIZE == 512 * PAGE_SIZE;
    assert Huge(x) == PageOf(x) / 512 && Huge(y) == PageOf(y) / 512;
    assert Off(x) / PAGE_SIZE == PageOf(x) - 512 * Huge(x);
    assert Off(y) / PAGE_SIZE == PageOf(y) - 512 * Huge(y);
  }

  /** Areas of different shares never have a page in common. */
  lemma {:induction false} AreasApart(base: nat, pfn: seq<nat>, pfn0: nat, i: nat, j: nat, s: nat, t: nat, x: nat,
                                      y: nat)
    requires i < SHARE && j < SHARE && i != j
    requires PlacedOk(base, pfn, Shares(pfn0)[i], s) && s - base <= x < s - base + Shares(pfn0)[i].size
    requires PlacedOk(base, pfn, Shares(pfn0)[j], t) && t - base <= y < t - base + Shares(pfn0)[j].size
    ensures PageOf(x) != PageOf(y)
  {
    if PageOf(x) == PageOf(y) {
      SamePage(x, y);
      AreaColors(base, pfn, Shares(pfn0)[i], s, x);
      AreaColors(base, pfn, Shares(pfn0)[j], t, y);
      Partition(pfn0, ColorAt(pfn, x));
    }
  }

  /** The byte x lies on a page whose colour belongs to the level: counted from the colour of the first frame,
      level 0 has the first two, level 1 the next five, and all deeper levels have the last one. */
  ghost predicate LevelColor(base: nat, pfn: seq<nat>, level: nat, x: nat)
    requires |pfn| > 0
  {
    && base <= x && Huge(x - base) < |pfn|
    && var d := (ColorAt(pfn, x - base) + 8 - pfn[0] % 8) % 8;
       if level == 0 then d < 2 else if level == 1 then 2 <= d < 7 else d == 7
  }

  /** The colours of the areas of the three shares. */
  lemma {:induction false} ShareLevel(base: nat, pfn: seq<nat>, s: nat, start: nat, x: nat, level: nat)
    requires |pfn| > 0 && s < SHARE && PlacedOk(base, pfn, Shares(pfn[0])[s], start)
    requires start <= x < start + Shares(pfn[0])[s].size
    requires (s == 0 <==> level == 0) && (s == 1 <==> level == 1)
    ensures LevelColor(base, pfn, level, x)
  {
    hide HasColor, ColorAt, Huge, Off, Shares;
    AreaColors(base, pfn, Shares(pfn[0])[s], start, x - base);
    SharesOf(pfn[0], ColorAt(pfn, x - base),
             (ColorAt(pfn, x - base) + PAGE_COLORS - pfn[0] % PAGE_COLORS) % PAGE_COLORS);
  }

  /** Page k of the first huge page. */
  lemma {:induction false} PlacedAt(base: nat, pfn: seq<nat>, sh: Share, k: nat)
    requires |pfn| > 0 && ShareOk(sh) && k < PAGE_COLORS && sh.pageColor == (pfn[0] + k) % PAGE_COLORS
    ensures PlacedOk(base, pfn, sh, base + k * PAGE_SIZE)
  {
    hide ColorAt;
    ColorStep(pfn, 0, k, 0);
    HugeIs(0, k * PAGE_SIZE);
  }

  /** The areas of mc_init are the first ones of their shares, and their colours are those of the shares. */
  lemma {:induction false} FirstAreas(base: nat, pfn: seq<nat>)
    requires |pfn| > 0
    ensures PlacedOk(base, pfn, Shares(pfn[0])[0], base)
    ensures PlacedOk(base, pfn, Shares(pfn[0])[1], base + 2 * PAGE_SIZE)
    ensures PlacedOk(base, pfn, Shares(pfn[0])[2], base + 7 * PAGE_SIZE)
    ensures Number(base, pfn, Shares(pfn[0])[0], base) == 0
    ensures Number(base, pfn, Shares(pfn[0])[1], base + 2 * PAGE_SIZE) == 0
    ensures Number(base, pfn, Shares(pfn[0])[2], base + 7 * PAGE_SIZE) == 0
  {
    hide PlacedOk;
    PlacedAt(base, pfn, Shares(pfn[0])[0], 0);
    PlacedAt(base, pfn, Shares(pfn[0])[1], 2);
    PlacedAt(base, pfn, Shares(pfn[0])[2], 7);
  }
}
