/** Searching the trie of IPv4 prefixes (lib/bitmap_v4.c). */
module SearchV4 {
  import opened Words
  import opened Addresses
  import opened Trees
  import opened LongestMatch
  import opened NodeSearch
  import opened Memory
  import opened Shapes
  import opened Search

  /** LEVEL, (LENGTH / STRIDE) + 1. */
  const LEVEL: nat := 6

  /** The words of one step of a search. */
  lemma {:induction false} SearchWords(fct: seq<Word>, ip: U32)
    requires Ready(fct)
    ensures STRIDE == 6 && LENGTH == 32 && LEVEL == 6 && |fct| == 32 && |Addr(ip)| == 32
    ensures Shr32(ip, LENGTH - STRIDE) == Val(Addr(ip)[..STRIDE]) < 64
    ensures Addr(Shl32(ip, STRIDE)) == Shifted(Addr(ip))
  {
    SearchStep(ip);
  }

  /** bitmap_do_search: on the way down every match replaces the one before. */
  method DoSearch(fct: seq<Word>, root: Ptr, ip0: U32, ghost s: Shape, ghost w: nat) returns (r: Nhi)
    requires Ready(fct) && At(root, s) && Match(s, 0) && Packed(Data(s)) && Fits(Data(s), w) && w <= LENGTH
    ensures r == NhiOf(Answer(Data(s), Addr(ip0), w))
  {
    hide *;
    var n, ip: U32, longest: Option<Nhi> := root, ip0, None;
    ghost var f, d: nat, v: nat, best: Option<Hit> := s, 0, w, None;
    SearchWords(fct, ip);
    SeenRoot(root, s);
    SearchStarts(Data(s), Addr(ip0), w);
    Noted(None, None, 0);
    while true
      invariant Seen(root, s, n, f, d)
      invariant Searching(Data(s), Addr(ip0), w, Data(f), Addr(ip), v, d, best)
      invariant longest == NhiOpt(best)
      decreases v
    {
      SearchWords(fct, ip);
      SearchUnfold(Data(s), Addr(ip0), w, Data(f), Addr(ip), v, d, best);
      SeenNode(root, s, n, f, d);
      var stride := Shr32(ip, LENGTH - STRIDE);
      SeenHit(fct, root, s, n, f, d, stride, Addr(ip));
      ghost var hit := NodeHit(Data(f), Addr(ip), STRIDE);
      Noted(hit, best, 6 * d);
      var pos := TreeFunction(fct, n.arr[n.idx].internal, stride);
      if pos != -1 {
        longest := Some(NhiAt(n, pos));
      }
      if TestBit(n.arr[n.idx].external, stride) {
        SearchDown(Data(s), Addr(ip0), w, Data(f), Addr(ip), v, d, best);
        ghost var g := SeenChild(root, s, n, f, d, stride);
        n := NextChild(n, stride);
        ip := Shl32(ip, STRIDE);
        f, v, best, d := g, v - STRIDE, OrElse(Deeper(hit, 6 * d), best), d + 1;
      } else {
        SearchStops(Data(s), Addr(ip0), w, Data(f), Addr(ip), v, d, best);
        best := OrElse(Deeper(hit, 6 * d), best);
        break;
      }
    }
    Noted(None, best, 0);
    r := if longest.None? then NULL else longest.value;
  }

  /** bitmap_do_search_lazy: down to the last node first, then back over the marks. */
  method DoSearchLazy(fct: seq<Word>, mark: array<LazyTravel>, root: Ptr, ip0: U32, ghost s: Shape, ghost w: nat)
    returns (r: Nhi)
    requires Ready(fct) && At(root, s) && Match(s, 0) && Packed(Data(s)) && Fits(Data(s), w) && w <= LENGTH
    requires mark.Length == LEVEL && mark !in Foot(s) + {root.arr}
    modifies mark
    ensures r == NhiOf(Answer(Data(s), Addr(ip0), w))
  {
    hide *;
    var n, ip: U32, travelDepth: nat := root, ip0, 0;
    ghost var a0, f, st: seq<Seat> := Addr(ip0), s, [];
    SearchWords(fct, ip);
    LaneStarts(root, s, w, a0, mark[..]);
    LaneHere(fct, root, s, w, a0, n, Addr(ip), mark[..], f, st);
    var stride := Shr32(ip, LENGTH - STRIDE);
    while TestBit(n.arr[n.idx].external, stride)
      invariant Lane(root, s, w, a0, n, Addr(ip), mark[..], f, st) && travelDepth == |st|
      invariant n.idx < n.arr.Length && n.arr[n.idx].external == f.ext
      invariant STRIDE == 6 && LENGTH == 32 && |a0| == 32 && stride == Val(Addr(ip)[..STRIDE]) < 64
      decreases w - 6 * |st|
    {
      SearchWords(fct, ip);
      ghost var g := LaneDown(root, s, w, a0, n, Addr(ip), mark[..], f, st, stride);
      ghost var mks := mark[..];
      mark[travelDepth] := LazyTravel(n, stride);
      assert mark[..] == mks[travelDepth := LazyTravel(n, stride)];
      travelDepth := travelDepth + 1;
      n := NextChild(n, stride);
      f, st := g, st + [Seat(f, Addr(ip))];
      ip := Shl32(ip, STRIDE);
      SearchWords(fct, ip);
      LaneHere(fct, root, s, w, a0, n, Addr(ip), mark[..], f, st);
      stride := Shr32(ip, LENGTH - STRIDE);
    }
    LaneHere(fct, root, s, w, a0, n, Addr(ip), mark[..], f, st);
    LaneStops(root, s, w, a0, n, Addr(ip), mark[..], f, st, stride);
    r := Backtrack(fct, mark[..], root, n, stride, travelDepth, s, f, Addr(ip), st);
  }
}
