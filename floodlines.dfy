/** The FLOODED_LINE records kept in the flood fill's scratch arena, their flag
    bits, and the invariants the arena keeps. Everything here is stated over the
    sequence of records in use (the first `flood_count` entries of the arena), so
    the engine in module AlgoFill only has to show that each of its steps turns
    one such sequence into the next. */
module FloodLines {
  import opened Raster

  const FLOOD_IN_USE: bv16 := 1
  const FLOOD_TODO_ABOVE: bv16 := 2
  const FLOOD_TODO_BELOW: bv16 := 4

  /** `f & ~b`: the flag word `f` with the bits of `b` cleared. */
  function ClearBits(f: bv16, b: bv16): bv16 { f & !b }

  const SHRT_MAX: int := 32767
  const SHRT_MIN: int := -32768

  /** One flooded segment: columns `lpos..rpos` of row `y`. `next` is the arena
      index of the next segment of the same row; 0 ends the chain. */
  datatype FloodedLine = FloodedLine(flags: bv16, lpos: int, rpos: int, y: int, next: int)

  /** One call `proc(x1, y, x2, data)` of the AlgoHLine callback. */
  datatype HLine = HLine(x1: int, y: int, x2: int)

  /** The record every row-head slot holds before its row gets a segment. */
  function EmptyLine(y: int): (s: FloodedLine)
    ensures s.flags == 0 && s.next == 0 && s.y == y
    ensures s.lpos > s.rpos  // no position lies inside it
  {
    FloodedLine(0, SHRT_MAX, SHRT_MIN, y, 0)
  }

  /** The flags of a freshly recorded segment on row `y` of an image `h` rows high. */
  function SegmentFlags(y: int, h: int): (f: bv16)
    ensures f & FLOOD_IN_USE != 0
    ensures (f & FLOOD_TODO_ABOVE != 0) == (y > 0)
    ensures (f & FLOOD_TODO_BELOW != 0) == (y + 1 < h)
  {
    var f := if y > 0 then FLOOD_IN_USE | FLOOD_TODO_ABOVE else FLOOD_IN_USE;
    if y + 1 < h then f | FLOOD_TODO_BELOW else f
  }

  predicate HasTodo(s: FloodedLine) {
    s.flags & FLOOD_TODO_ABOVE != 0 || s.flags & FLOOD_TODO_BELOW != 0
  }

  /** A recorded segment: in use, a maximal run of the source colour, and asking
      for a neighbouring row only when that row exists. */
  ghost predicate SegmentOk(img: Image, src: int, s: FloodedLine)
    requires img.Valid()
  {
    && s.flags & FLOOD_IN_USE != 0
    && IsMaxRun(img, src, s.lpos, s.rpos, s.y)
    && (s.flags & FLOOD_TODO_ABOVE != 0 ==> s.y > 0)
    && (s.flags & FLOOD_TODO_BELOW != 0 ==> s.y + 1 < img.h)
  }

  /** Row-head slot `r` is either still empty or holds a segment of row `r`. */
  ghost predicate HeadOk(img: Image, src: int, s: FloodedLine, r: int)
    requires img.Valid()
  {
    if s.flags == 0 then s.lpos == SHRT_MAX && s.rpos == SHRT_MIN && s.next == 0
    else SegmentOk(img, src, s) && s.y == r
  }

  /** `ch` lists the arena indices met when following `next` from head slot `r`:
      the head, then overflow segments of row `r`, the last one with `next == 0`. */
  ghost predicate ChainOk(L: seq<FloodedLine>, ch: seq<int>, r: int, h: int)
  {
    && |ch| > 0 && ch[0] == r
    && (forall k :: 0 <= k < |ch| ==> 0 <= ch[k] < |L|)
    && (forall k :: 1 <= k < |ch| ==> h <= ch[k] && L[ch[k]].y == r)
    && (forall k :: 0 <= k < |ch| - 1 ==> L[ch[k]].next == ch[k + 1])
    && L[ch[|ch| - 1]].next == 0
    && (L[r].flags == 0 ==> |ch| == 1)
  }

  /** The records in use, `L`, with `chains[r]` the chain of row `r`. Slots
      `0..h-1` are the row heads; every slot past them holds a segment that is on
      its row's chain. */
  ghost predicate ArenaOk(img: Image, src: int, L: seq<FloodedLine>, chains: seq<seq<int>>)
  {
    && img.Valid() && 0 < img.h <= |L| && |chains| == img.h
    && (forall r :: 0 <= r < img.h ==> HeadOk(img, src, L[r], r))
    && (forall i :: img.h <= i < |L| ==> SegmentOk(img, src, L[i]))
    && (forall r :: 0 <= r < img.h ==> ChainOk(L, chains[r], r, img.h))
    && (forall i :: img.h <= i < |L| ==> 0 <= L[i].y < img.h && i in chains[L[i].y])
  }

  /** The pixels covered by the records of `L`. */
  ghost function Covered(L: seq<FloodedLine>): set<Point>
  {
    set i, x | 0 <= i < |L| && L[i].lpos <= x <= L[i].rpos :: (x, L[i].y)
  }

  /** The pixels reported through the callback. */
  ghost function TracePixels(trace: seq<HLine>): set<Point>
  {
    set i, x | 0 <= i < |trace| && trace[i].x1 <= x <= trace[i].x2 :: (x, trace[i].y)
  }

  /** Every reported run is a maximal run of the source colour, and two runs
      reported on the same row never share a pixel. */
  ghost predicate TraceOk(img: Image, src: int, trace: seq<HLine>)
    requires img.Valid()
  {
    && (forall i :: 0 <= i < |trace| ==> IsMaxRun(img, src, trace[i].x1, trace[i].x2, trace[i].y))
    && (forall i, j :: 0 <= i < j < |trace| && trace[i].y == trace[j].y ==>
          trace[i].x2 < trace[j].x1 || trace[j].x2 < trace[i].x1)
  }

  /** The state of a fill in progress from `seed`: a well-formed arena, a trace
      that reports exactly the pixels the arena covers, all of them 4-connected to
      the seed through pixels of the source colour. */
  ghost predicate FillOk(img: Image, src: int, seed: Point, L: seq<FloodedLine>, chains: seq<seq<int>>, trace: seq<HLine>)
  {
    && ArenaOk(img, src, L, chains)
    && TraceOk(img, src, trace)
    && TracePixels(trace) == Covered(L)
    && (forall p :: p in Covered(L) ==> Reachable(img, src, seed, p))
  }

  /** The two structural halves of a consistent fill. */
  lemma FillParts(img: Image, src: int, seed: Point, L: seq<FloodedLine>, chains: seq<seq<int>>, trace: seq<HLine>)
    requires FillOk(img, src, seed, L, chains, trace)
    ensures ArenaOk(img, src, L, chains) && TraceOk(img, src, trace)
    ensures TracePixels(trace) == Covered(L) && Covered(L) <= Grid(img)
  {
    CoveredMatches(img, src, L, chains);
  }

  /** A record keeps its flags and its extent; only `next` may differ. */
  ghost predicate SameSegment(s: FloodedLine, t: FloodedLine) {
    s.flags == t.flags && s.lpos == t.lpos && s.rpos == t.rpos && s.y == t.y
  }

  /** `L2` is `L1` after recording segments: every segment of `L1` keeps its flags
      and extent, and every segment that is new carries a fresh segment's flags. */
  ghost predicate Extends(L1: seq<FloodedLine>, L2: seq<FloodedLine>, h: int) {
    && |L1| <= |L2|
    && (forall i :: 0 <= i < |L1| && L1[i].flags != 0 ==> SameSegment(L1[i], L2[i]))
    && (forall i :: 0 <= i < |L2| && L2[i].flags != 0 && (i >= |L1| || L1[i].flags == 0) ==>
          L2[i].flags == SegmentFlags(L2[i].y, h))
  }

  /** Every pixel of the source colour in columns `left..right` of row `y` is in `C`
      (nothing to do when row `y` is outside the image). */
  ghost predicate RowDone(img: Image, src: int, C: set<Point>, left: int, right: int, y: int)
    requires img.Valid()
  {
    0 <= y < img.h ==>
      forall x :: left <= x <= right && 0 <= x < img.w && img.Pixel(x, y) == src ==> (x, y) in C
  }

  /** One step of check_flood_line's scan: the columns before `x0` were done in
      `C1`, the step covered `x0..x-2` and stopped before a pixel of another colour
      (or the border), so the columns before `x` are done in the larger `C2`. */
  lemma {:induction false} ScanStep(img: Image, src: int, C1: set<Point>, C2: set<Point>,
                                    left: int, right: int, y: int, x0: int, x: int)
    requires img.Valid() && 0 <= y < img.h && 0 <= left && right < img.w && C1 <= C2
    requires forall p :: left <= p < x0 && p <= right && img.Pixel(p, y) == src ==> (p, y) in C1
    requires forall p :: x0 <= p < x - 1 ==> (p, y) in C2
    requires 0 <= x - 1 < img.w ==> img.Pixel(x - 1, y) != src
    ensures forall p :: left <= p < x && p <= right && img.Pixel(p, y) == src ==> (p, y) in C2
  {
    forall p | left <= p < x && p <= right && img.Pixel(p, y) == src
      ensures (p, y) in C2
    {
      if p < x0 {
        assert (p, y) in C1;
      }
    }
  }

  /** A segment whose TODO_ABOVE (TODO_BELOW) flag is clear has had the row above
      (below) it checked: the run-of-colour pixels there are covered. */
  ghost predicate Settled(img: Image, src: int, L: seq<FloodedLine>, C: set<Point>)
    requires img.Valid()
  {
    forall i :: 0 <= i < |L| && L[i].flags != 0 ==>
      && (L[i].flags & FLOOD_TODO_ABOVE == 0 ==> RowDone(img, src, C, L[i].lpos, L[i].rpos, L[i].y - 1))
      && (L[i].flags & FLOOD_TODO_BELOW == 0 ==> RowDone(img, src, C, L[i].lpos, L[i].rpos, L[i].y + 1))
  }

  /** All pixels of the image. */
  ghost function Grid(img: Image): set<Point>
  {
    set x, y | 0 <= x < img.w && 0 <= y < img.h :: (x, y)
  }

  /** The (segment, flag) pairs still waiting to be checked. */
  ghost function Pending(L: seq<FloodedLine>): set<(int, bv16)>
  {
    set i, b | 0 <= i < |L| && b in {FLOOD_TODO_ABOVE, FLOOD_TODO_BELOW} && L[i].flags & b != 0 :: (i, b)
  }

  /** The termination measure of the sweep: pixels not yet covered, then pending
      checks. `Progress` is a strict decrease, `NoRegress` a non-strict one. */
  ghost predicate Progress(g1: set<Point>, p1: set<(int, bv16)>, g0: set<Point>, p0: set<(int, bv16)>) {
    g1 < g0 || (g1 == g0 && p1 < p0)
  }

  ghost predicate NoRegress(g1: set<Point>, p1: set<(int, bv16)>, g0: set<Point>, p0: set<(int, bv16)>) {
    g1 < g0 || (g1 == g0 && p1 <= p0)
  }

  // ---------------------------------------------------------------------------
  // Reading the arena

  /** A record that covers some position is a segment on its row's chain. */
  lemma OnOwnChain(img: Image, src: int, L: seq<FloodedLine>, chains: seq<seq<int>>, i: int)
    requires ArenaOk(img, src, L, chains)
    requires 0 <= i < |L| && L[i].lpos <= L[i].rpos
    ensures SegmentOk(img, src, L[i])
    ensures 0 <= L[i].y < img.h && i in chains[L[i].y]
  {
    if i < img.h {
      assert HeadOk(img, src, L[i], i);
      assert ChainOk(L, chains[i], i, img.h);
      assert chains[i][0] == i;
    }
  }

  /** Covered pixels lie in the image and have the source colour. */
  lemma CoveredMatches(img: Image, src: int, L: seq<FloodedLine>, chains: seq<seq<int>>)
    requires ArenaOk(img, src, L, chains)
    ensures forall p :: p in Covered(L) ==> Matches(img, src, p)
    ensures Covered(L) <= Grid(img)
  {
    forall p | p in Covered(L)
      ensures Matches(img, src, p)
    {
      var i, x :| 0 <= i < |L| && L[i].lpos <= x <= L[i].rpos && p == (x, L[i].y);
      OnOwnChain(img, src, L, chains, i);
    }
  }

  /** A position that no segment on row `y`'s chain contains is not covered at all. */
  lemma NotCoveredOffChain(img: Image, src: int, L: seq<FloodedLine>, chains: seq<seq<int>>, x: int, y: int)
    requires ArenaOk(img, src, L, chains) && 0 <= y < img.h
    requires forall k :: 0 <= k < |chains[y]| ==> !(L[chains[y][k]].lpos <= x <= L[chains[y][k]].rpos)
    ensures (x, y) !in Covered(L)
  {
    forall i | 0 <= i < |L| && L[i].y == y && L[i].lpos <= x <= L[i].rpos
      ensures i in chains[y]
    {
      OnOwnChain(img, src, L, chains, i);
    }
  }

  // ---------------------------------------------------------------------------
  // Recording a segment (the second half of flooder)

  lemma TraceAppend(trace: seq<HLine>, t: HLine)
    ensures TracePixels(trace + [t]) == TracePixels(trace) + RunPixels(t.x1, t.x2, t.y)
  {
    var trace' := trace + [t];
    forall p | p in TracePixels(trace')
      ensures p in TracePixels(trace) + RunPixels(t.x1, t.x2, t.y)
    {
      var i, x :| 0 <= i < |trace'| && trace'[i].x1 <= x <= trace'[i].x2 && p == (x, trace'[i].y);
      if i < |trace| {
        assert trace'[i] == trace[i];
      }
    }
    forall p | p in TracePixels(trace)
      ensures p in TracePixels(trace')
    {
      var i, x :| 0 <= i < |trace| && trace[i].x1 <= x <= trace[i].x2 && p == (x, trace[i].y);
      assert trace'[i] == trace[i];
    }
    forall p | p in RunPixels(t.x1, t.x2, t.y)
      ensures p in TracePixels(trace')
    {
      assert trace'[|trace|] == t;
    }
  }

  /** A run that overlaps an earlier maximal run of the same row is that run. */
  lemma OverlapIsCovered(img: Image, src: int, trace: seq<HLine>, t: HLine, x: int, i: int)
    requires img.Valid() && TraceOk(img, src, trace)
    requires IsMaxRun(img, src, t.x1, t.x2, t.y) && t.x1 <= x <= t.x2
    requires 0 <= i < |trace| && trace[i].y == t.y
    requires !(trace[i].x2 < t.x1 || t.x2 < trace[i].x1)
    ensures (x, t.y) in TracePixels(trace)
  {
    MaxRunsOverlapAreEqual(img, src, trace[i].x1, trace[i].x2, t.x1, t.x2, t.y);
    assert trace[i].x1 <= x <= trace[i].x2;
  }

  /** Reporting a maximal run through an uncovered pixel keeps the trace
      disjoint. */
  lemma ReportRun(img: Image, src: int, trace: seq<HLine>, t: HLine, x: int)
    requires img.Valid() && TraceOk(img, src, trace)
    requires IsMaxRun(img, src, t.x1, t.x2, t.y) && t.x1 <= x <= t.x2
    requires (x, t.y) !in TracePixels(trace)
    ensures TraceOk(img, src, trace + [t])
  {
    var trace' := trace + [t];
    forall i | 0 <= i < |trace| && trace[i].y == t.y
      ensures trace[i].x2 < t.x1 || t.x2 < trace[i].x1
    {
      if !(trace[i].x2 < t.x1 || t.x2 < trace[i].x1) {
        OverlapIsCovered(img, src, trace, t, x, i);
      }
    }
    forall i, j | 0 <= i < j < |trace'| && trace'[i].y == trace'[j].y
      ensures trace'[i].x2 < trace'[j].x1 || trace'[j].x2 < trace'[i].x1
    {
      if j == |trace| {
        assert trace'[j] == t && trace'[i] == trace[i];
      } else {
        assert trace'[j] == trace[j] && trace'[i] == trace[i];
      }
    }
  }

  /** Placing a segment into its row's empty head slot. */
  lemma OccupyHead(img: Image, src: int, L: seq<FloodedLine>, chains: seq<seq<int>>, seg: FloodedLine)
    requires ArenaOk(img, src, L, chains)
    requires 0 <= seg.y < img.h && L[seg.y].flags == 0
    requires SegmentOk(img, src, seg) && seg.next == 0
    ensures ArenaOk(img, src, L[seg.y := seg], chains)
  {
    var y := seg.y;
    var L' := L[y := seg];
    forall r | 0 <= r < img.h
      ensures ChainOk(L', chains[r], r, img.h)
    {
      assert ChainOk(L, chains[r], r, img.h);
      if r != y {
        forall k | 0 <= k < |chains[r]|
          ensures L'[chains[r][k]] == L[chains[r][k]]
        {
          if k > 0 {
            assert img.h <= chains[r][k];
          }
        }
      }
    }
    forall r | 0 <= r < img.h
      ensures HeadOk(img, src, L'[r], r)
    {
      assert HeadOk(img, src, L[r], r);
    }
  }

  /** Overwriting a record that covers nothing adds exactly the new record's pixels. */
  lemma ReplaceEmptyCovered(L: seq<FloodedLine>, c: int, seg: FloodedLine)
    requires 0 <= c < |L| && L[c].lpos > L[c].rpos
    ensures Covered(L[c := seg]) == Covered(L) + RunPixels(seg.lpos, seg.rpos, seg.y)
  {
    var L' := L[c := seg];
    forall p | p in Covered(L')
      ensures p in Covered(L) + RunPixels(seg.lpos, seg.rpos, seg.y)
    {
      var i, x :| 0 <= i < |L'| && L'[i].lpos <= x <= L'[i].rpos && p == (x, L'[i].y);
      if i != c {
        assert L'[i] == L[i];
      }
    }
    forall p | p in Covered(L)
      ensures p in Covered(L')
    {
      var i, x :| 0 <= i < |L| && L[i].lpos <= x <= L[i].rpos && p == (x, L[i].y);
      assert L'[i] == L[i];
    }
    forall p | p in RunPixels(seg.lpos, seg.rpos, seg.y)
      ensures p in Covered(L')
    {
      assert L'[c] == seg;
    }
  }

  /** Relinking one record and appending another adds exactly the appended
      record's pixels. */
  lemma RelinkAppendCovered(L: seq<FloodedLine>, c: int, n: int, seg: FloodedLine)
    requires 0 <= c < |L|
    ensures Covered(L[c := L[c].(next := n)] + [seg]) == Covered(L) + RunPixels(seg.lpos, seg.rpos, seg.y)
  {
    var L' := L[c := L[c].(next := n)] + [seg];
    forall p | p in Covered(L')
      ensures p in Covered(L) + RunPixels(seg.lpos, seg.rpos, seg.y)
    {
      var i, x :| 0 <= i < |L'| && L'[i].lpos <= x <= L'[i].rpos && p == (x, L'[i].y);
      if i < |L| {
        assert L[i].lpos == L'[i].lpos && L[i].rpos == L'[i].rpos && L[i].y == L'[i].y;
      }
    }
    forall p | p in Covered(L)
      ensures p in Covered(L')
    {
      var i, x :| 0 <= i < |L| && L[i].lpos <= x <= L[i].rpos && p == (x, L[i].y);
      assert L'[i].lpos == L[i].lpos && L'[i].rpos == L[i].rpos && L'[i].y == L[i].y;
    }
    forall p | p in RunPixels(seg.lpos, seg.rpos, seg.y)
      ensures p in Covered(L')
    {
      assert L'[|L|] == seg;
    }
  }

  /** The last index of row `y`'s chain is the head `y` or an overflow segment of
      row `y`, and no earlier index of the chain equals it. */
  lemma ChainTail(img: Image, src: int, L: seq<FloodedLine>, chains: seq<seq<int>>, y: int)
    requires ArenaOk(img, src, L, chains) && 0 <= y < img.h
    ensures var ch := chains[y]; var tail := ch[|ch| - 1];
      && 0 <= tail < |L| && (tail == y || (img.h <= tail && L[tail].y == y))
      && L[tail].next == 0
      && (forall k :: 0 <= k < |ch| - 1 ==> ch[k] != tail && L[ch[k]].next != 0)
  {
    var ch := chains[y];
    assert ChainOk(L, ch, y, img.h);
    forall k | 0 <= k < |ch| - 1
      ensures L[ch[k]].next != 0
    {
      assert L[ch[k]].next == ch[k + 1] && img.h <= ch[k + 1];
    }
  }

  /** Appending a segment at index `|L|` to the end of its row's chain, whose last
      index is `tail`. */
  lemma AppendToChain(img: Image, src: int, L: seq<FloodedLine>, chains: seq<seq<int>>, seg: FloodedLine, tail: int)
    requires ArenaOk(img, src, L, chains)
    requires 0 <= seg.y < img.h && L[seg.y].flags != 0
    requires SegmentOk(img, src, seg) && seg.next == 0
    requires tail == chains[seg.y][|chains[seg.y]| - 1]
    ensures 0 <= tail < |L|
    ensures ArenaOk(img, src, L[tail := L[tail].(next := |L|)] + [seg], chains[seg.y := chains[seg.y] + [|L|]])
  {
    hide ChainOk;
    var y, n := seg.y, |L|;
    ChainTail(img, src, L, chains, y);
    var L' := L[tail := L[tail].(next := n)] + [seg];
    var chains' := chains[y := chains[y] + [n]];
    var ch := chains[y];
    ChainsAvoidTail(img, src, L, chains, y, L');
    AppendedChainOk(L, ch, y, img.h, seg);
    forall r | 0 <= r < img.h
      ensures HeadOk(img, src, L'[r], r)
    {
      assert HeadOk(img, src, L[r], r);
    }
    forall i | img.h <= i < |L'|
      ensures SegmentOk(img, src, L'[i]) && 0 <= L'[i].y < img.h && i in chains'[L'[i].y]
    {
      if i < n {
        assert SegmentOk(img, src, L[i]) && i in chains[L[i].y];
        assert L'[i].flags == L[i].flags && L'[i].lpos == L[i].lpos && L'[i].rpos == L[i].rpos && L'[i].y == L[i].y;
      } else {
        assert L'[i] == seg;
        assert chains'[y][|ch|] == n;
      }
    }
  }

  /** Linking a new record from the tail of a chain extends that chain by it. */
  lemma AppendedChainOk(L: seq<FloodedLine>, ch: seq<int>, y: int, h: int, seg: FloodedLine)
    requires ChainOk(L, ch, y, h) && h <= |L| && 0 <= y < h
    requires seg.y == y && seg.next == 0 && L[y].flags != 0
    requires forall k :: 0 <= k < |ch| - 1 ==> ch[k] != ch[|ch| - 1]
    ensures ChainOk(L[ch[|ch| - 1] := L[ch[|ch| - 1]].(next := |L|)] + [seg], ch + [|L|], y, h)
  {
    var tail, n := ch[|ch| - 1], |L|;
    var L' := L[tail := L[tail].(next := n)] + [seg];
    forall k | 0 <= k < |ch| - 1
      ensures L'[ch[k]] == L[ch[k]]
    {
    }
    assert L'[y].flags == L[y].flags;
  }

  /** The chains of rows other than `y` never visit the tail of row `y`'s chain,
      so relinking that tail leaves them intact. */
  lemma ChainsAvoidTail(img: Image, src: int, L: seq<FloodedLine>, chains: seq<seq<int>>, y: int, L': seq<FloodedLine>)
    requires ArenaOk(img, src, L, chains) && 0 <= y < img.h
    requires var ch := chains[y]; var tail := ch[|ch| - 1];
      && 0 <= tail < |L| && (tail == y || (img.h <= tail && L[tail].y == y))
      && |L| <= |L'| && forall i :: 0 <= i < |L| && i != tail ==> L'[i] == L[i]
    ensures forall r :: 0 <= r < img.h && r != y ==> ChainOk(L', chains[r], r, img.h)
  {
    var tail := chains[y][|chains[y]| - 1];
    forall r | 0 <= r < img.h && r != y
      ensures ChainOk(L', chains[r], r, img.h)
    {
      assert ChainOk(L, chains[r], r, img.h);
      forall k | 0 <= k < |chains[r]|
        ensures L'[chains[r][k]] == L[chains[r][k]]
      {
        if k > 0 {
          assert img.h <= chains[r][k] && L[chains[r][k]].y == r;
        }
      }
    }
  }

  /** Reporting and storing a run through the uncovered, reachable pixel `x`
      keeps the trace equal to the covered pixels, disjoint, and reachable. */
  lemma ReportAndCover(img: Image, src: int, seed: Point, L: seq<FloodedLine>, L': seq<FloodedLine>,
                       trace: seq<HLine>, t: HLine, x: int)
    requires img.Valid() && TraceOk(img, src, trace) && TracePixels(trace) == Covered(L)
    requires forall p :: p in Covered(L) ==> Reachable(img, src, seed, p)
    requires IsMaxRun(img, src, t.x1, t.x2, t.y) && t.x1 <= x <= t.x2
    requires (x, t.y) !in Covered(L) && Reachable(img, src, seed, (x, t.y))
    requires Covered(L') == Covered(L) + RunPixels(t.x1, t.x2, t.y)
    ensures TraceOk(img, src, trace + [t]) && TracePixels(trace + [t]) == Covered(L')
    ensures forall p :: p in Covered(L') ==> Reachable(img, src, seed, p)
  {
    ReportRun(img, src, trace, t, x);
    TraceAppend(trace, t);
    forall p | p in RunPixels(t.x1, t.x2, t.y)
      ensures Reachable(img, src, seed, p)
    {
      ReachableAlongRun(img, src, seed, t.x1, t.x2, t.y, x, p.0);
    }
  }

  /** flooder's store step when row `seg.y` has no segment yet. */
  lemma RecordInHead(img: Image, src: int, seed: Point, L: seq<FloodedLine>, chains: seq<seq<int>>,
                     trace: seq<HLine>, seg: FloodedLine, x: int)
    requires FillOk(img, src, seed, L, chains, trace)
    requires 0 <= seg.y < img.h && L[seg.y].flags == 0
    requires seg.flags == SegmentFlags(seg.y, img.h) && seg.next == 0
    requires IsMaxRun(img, src, seg.lpos, seg.rpos, seg.y) && seg.lpos <= x <= seg.rpos
    requires (x, seg.y) !in Covered(L) && Reachable(img, src, seed, (x, seg.y))
    ensures FillOk(img, src, seed, L[seg.y := seg], chains, trace + [HLine(seg.lpos, seg.y, seg.rpos)])
    ensures Covered(L[seg.y := seg]) == Covered(L) + RunPixels(seg.lpos, seg.rpos, seg.y)
    ensures Extends(L, L[seg.y := seg], img.h)
  {
    hide ChainOk, IsPath, TraceOk;
    assert HeadOk(img, src, L[seg.y], seg.y);
    OccupyHead(img, src, L, chains, seg);
    ReplaceEmptyCovered(L, seg.y, seg);
    ReportAndCover(img, src, seed, L, L[seg.y := seg], trace, HLine(seg.lpos, seg.y, seg.rpos), x);
  }

  /** flooder's store step when row `seg.y` already has a segment: `seg` goes to
      index `|L|`, linked from the chain's last index `tail`. */
  lemma RecordAtTail(img: Image, src: int, seed: Point, L: seq<FloodedLine>, chains: seq<seq<int>>,
                     trace: seq<HLine>, seg: FloodedLine, x: int, tail: int)
    requires FillOk(img, src, seed, L, chains, trace)
    requires 0 <= seg.y < img.h && L[seg.y].flags != 0
    requires seg.flags == SegmentFlags(seg.y, img.h) && seg.next == 0
    requires IsMaxRun(img, src, seg.lpos, seg.rpos, seg.y) && seg.lpos <= x <= seg.rpos
    requires (x, seg.y) !in Covered(L) && Reachable(img, src, seed, (x, seg.y))
    requires tail == chains[seg.y][|chains[seg.y]| - 1]
    ensures 0 <= tail < |L|
    ensures var L' := L[tail := L[tail].(next := |L|)] + [seg];
      && FillOk(img, src, seed, L', chains[seg.y := chains[seg.y] + [|L|]], trace + [HLine(seg.lpos, seg.y, seg.rpos)])
      && Covered(L') == Covered(L) + RunPixels(seg.lpos, seg.rpos, seg.y)
      && Extends(L, L', img.h)
  {
    hide ChainOk, IsPath, TraceOk;
    AppendToChain(img, src, L, chains, seg, tail);
    RelinkAppendCovered(L, tail, |L|, seg);
    var L' := L[tail := L[tail].(next := |L|)] + [seg];
    ReportAndCover(img, src, seed, L, L', trace, HLine(seg.lpos, seg.y, seg.rpos), x);
    AppendExtends(L, tail, seg, img.h);
  }

  lemma AppendExtends(L: seq<FloodedLine>, tail: int, seg: FloodedLine, h: int)
    requires 0 <= tail < |L| && seg.flags == SegmentFlags(seg.y, h)
    ensures Extends(L, L[tail := L[tail].(next := |L|)] + [seg], h)
  {
    var L' := L[tail := L[tail].(next := |L|)] + [seg];
    assert forall i :: 0 <= i < |L| ==> SameSegment(L[i], L'[i]);
    assert L'[|L|] == seg;
  }

  /** The arena algo_floodfill sets up: `h` empty head slots, no segment. */
  lemma EmptyArena(img: Image, src: int, seed: Point, L: seq<FloodedLine>)
    requires img.Valid() && 0 < img.h && |L| == img.h
    requires forall i :: 0 <= i < |L| ==> L[i] == EmptyLine(seed.1)
    ensures FillOk(img, src, seed, L, seq(img.h, r => [r]), [])
    ensures Covered(L) == {}
    ensures Settled(img, src, L, {})
    ensures Pending(L) == {}
  {
    var chains := seq(img.h, r => [r]);
    forall r | 0 <= r < img.h
      ensures ChainOk(L, chains[r], r, img.h) && HeadOk(img, src, L[r], r)
    {
      assert chains[r] == [r];
    }
    assert forall i :: 0 <= i < |L| ==> L[i].lpos > L[i].rpos;
    assert Covered(L) == {};
    assert TracePixels([]) == {};
  }

  /** Two arenas whose records agree on extent cover the same pixels. */
  lemma SameExtentCovered(L: seq<FloodedLine>, L': seq<FloodedLine>)
    requires |L| == |L'|
    requires forall i :: 0 <= i < |L| ==> L[i].lpos == L'[i].lpos && L[i].rpos == L'[i].rpos && L[i].y == L'[i].y
    ensures Covered(L) == Covered(L')
  {
    forall p | p in Covered(L)
      ensures p in Covered(L')
    {
      var i, x :| 0 <= i < |L| && L[i].lpos <= x <= L[i].rpos && p == (x, L[i].y);
    }
    forall p | p in Covered(L')
      ensures p in Covered(L)
    {
      var i, x :| 0 <= i < |L'| && L'[i].lpos <= x <= L'[i].rpos && p == (x, L'[i].y);
    }
  }

  /** Clearing a pending TODO flag of segment `c` (the sweep's `flags &= ~b`). */
  lemma ClearTodo(img: Image, src: int, seed: Point, L: seq<FloodedLine>, chains: seq<seq<int>>,
                  trace: seq<HLine>, c: int, b: bv16)
    requires FillOk(img, src, seed, L, chains, trace)
    requires 0 <= c < |L| && (b == FLOOD_TODO_ABOVE || b == FLOOD_TODO_BELOW) && L[c].flags & b != 0
    ensures SegmentOk(img, src, L[c]) && SegmentOk(img, src, L[c].(flags := ClearBits(L[c].flags, b)))
    ensures var L' := L[c := L[c].(flags := ClearBits(L[c].flags, b))];
      && FillOk(img, src, seed, L', chains, trace)
      && Covered(L') == Covered(L)
      && Pending(L') < Pending(L)
  {
    var L' := L[c := L[c].(flags := ClearBits(L[c].flags, b))];
    ClearTodoArena(img, src, L, chains, c, b);
    SameExtentCovered(L, L');
    ClearTodoPending(L, c, b);
  }

  lemma ClearTodoArena(img: Image, src: int, L: seq<FloodedLine>, chains: seq<seq<int>>, c: int, b: bv16)
    requires ArenaOk(img, src, L, chains)
    requires 0 <= c < |L| && (b == FLOOD_TODO_ABOVE || b == FLOOD_TODO_BELOW) && L[c].flags & b != 0
    ensures SegmentOk(img, src, L[c]) && SegmentOk(img, src, L[c].(flags := ClearBits(L[c].flags, b)))
    ensures ArenaOk(img, src, L[c := L[c].(flags := ClearBits(L[c].flags, b))], chains)
  {
    var L' := L[c := L[c].(flags := ClearBits(L[c].flags, b))];
    if c < img.h {
      assert HeadOk(img, src, L[c], c);
    }
    assert L'[c].flags & FLOOD_IN_USE == L[c].flags & FLOOD_IN_USE;
    assert L'[c].flags & FLOOD_TODO_ABOVE != 0 ==> L[c].flags & FLOOD_TODO_ABOVE != 0;
    assert L'[c].flags & FLOOD_TODO_BELOW != 0 ==> L[c].flags & FLOOD_TODO_BELOW != 0;
    assert SegmentOk(img, src, L'[c]);
    forall r | 0 <= r < img.h
      ensures HeadOk(img, src, L'[r], r)
    {
      assert HeadOk(img, src, L[r], r);
    }
    forall r | 0 <= r < img.h
      ensures ChainOk(L', chains[r], r, img.h)
    {
      assert ChainOk(L, chains[r], r, img.h);
    }
  }

  lemma ClearTodoPending(L: seq<FloodedLine>, c: int, b: bv16)
    requires 0 <= c < |L| && (b == FLOOD_TODO_ABOVE || b == FLOOD_TODO_BELOW) && L[c].flags & b != 0
    ensures Pending(L[c := L[c].(flags := ClearBits(L[c].flags, b))]) < Pending(L)
  {
    var L' := L[c := L[c].(flags := ClearBits(L[c].flags, b))];
    assert (c, b) in Pending(L);
    assert L'[c].flags & b == 0;
    forall q | q in Pending(L')
      ensures q in Pending(L) && q != (c, b)
    {
      var i, b' :| 0 <= i < |L'| && b' in {FLOOD_TODO_ABOVE, FLOOD_TODO_BELOW} && L'[i].flags & b' != 0 && q == (i, b');
      if i == c {
        assert L[c].flags & b' != 0;
      } else {
        assert L'[i] == L[i];
      }
    }
  }

  lemma ExtendsTransitive(L1: seq<FloodedLine>, L2: seq<FloodedLine>, L3: seq<FloodedLine>, h: int)
    requires Extends(L1, L2, h) && Extends(L2, L3, h)
    ensures Extends(L1, L3, h)
  {
    forall i | 0 <= i < |L3| && L3[i].flags != 0 && (i >= |L1| || L1[i].flags == 0)
      ensures L3[i].flags == SegmentFlags(L3[i].y, h)
    {
      if i < |L2| && L2[i].flags != 0 {
        assert SameSegment(L2[i], L3[i]);
      }
    }
  }

  /** Recording new segments and covering more pixels keeps every segment settled
      that was settled: new segments carry both TODO flags where a row exists. */
  lemma SettledGrows(img: Image, src: int, L1: seq<FloodedLine>, C1: set<Point>, L2: seq<FloodedLine>, C2: set<Point>)
    requires img.Valid() && Settled(img, src, L1, C1)
    requires Extends(L1, L2, img.h) && C1 <= C2
    ensures Settled(img, src, L2, C2)
  {
    forall i | 0 <= i < |L2| && L2[i].flags != 0
      ensures L2[i].flags & FLOOD_TODO_ABOVE == 0 ==> RowDone(img, src, C2, L2[i].lpos, L2[i].rpos, L2[i].y - 1)
      ensures L2[i].flags & FLOOD_TODO_BELOW == 0 ==> RowDone(img, src, C2, L2[i].lpos, L2[i].rpos, L2[i].y + 1)
    {
      if i < |L1| && L1[i].flags != 0 {
        assert SameSegment(L1[i], L2[i]);
      }
    }
  }

  /** The sweep's step on segment `c` and flag `b`: the flag is cleared, the row
      on that side is checked (covering it), and segments may be recorded. */
  lemma SettledAfterCheck(img: Image, src: int, L: seq<FloodedLine>, C: set<Point>, c: int, b: bv16,
                          L2: seq<FloodedLine>, C2: set<Point>)
    requires img.Valid() && Settled(img, src, L, C)
    requires 0 <= c < |L| && (b == FLOOD_TODO_ABOVE || b == FLOOD_TODO_BELOW) && L[c].flags & b != 0
    requires L[c].flags & FLOOD_IN_USE != 0
    requires Extends(L[c := L[c].(flags := ClearBits(L[c].flags, b))], L2, img.h) && C <= C2
    requires RowDone(img, src, C2, L[c].lpos, L[c].rpos, if b == FLOOD_TODO_ABOVE then L[c].y - 1 else L[c].y + 1)
    ensures Settled(img, src, L2, C2)
  {
    var L1 := L[c := L[c].(flags := ClearBits(L[c].flags, b))];
    assert Settled(img, src, L1, C2) by {
      forall i | 0 <= i < |L1| && L1[i].flags != 0
        ensures L1[i].flags & FLOOD_TODO_ABOVE == 0 ==> RowDone(img, src, C2, L1[i].lpos, L1[i].rpos, L1[i].y - 1)
        ensures L1[i].flags & FLOOD_TODO_BELOW == 0 ==> RowDone(img, src, C2, L1[i].lpos, L1[i].rpos, L1[i].y + 1)
      {
        if i == c {
          assert L[c].flags != 0;
          if b == FLOOD_TODO_ABOVE {
            assert L1[c].flags & FLOOD_TODO_BELOW == L[c].flags & FLOOD_TODO_BELOW;
          } else {
            assert L1[c].flags & FLOOD_TODO_ABOVE == L[c].flags & FLOOD_TODO_ABOVE;
          }
        } else {
          assert L1[i] == L[i];
        }
      }
    }
    SettledGrows(img, src, L1, C2, L2, C2);
  }

  /** The whole of one probe of the sweep: flag `b` of segment `c` cleared (`L0` to
      `L1`), then check_flood_line run on the row on that side (`L1` to `L2`). The
      segment keeps its cleared flags, the arena stays settled, and the sweep's
      measure goes down: the covered pixels grew, or they stayed and one pending
      check went. */
  lemma ProbeDone(img: Image, src: int, L0: seq<FloodedLine>, c: int, b: bv16,
                  L1: seq<FloodedLine>, L2: seq<FloodedLine>)
    requires img.Valid() && Settled(img, src, L0, Covered(L0))
    requires 0 <= c < |L0| && (b == FLOOD_TODO_ABOVE || b == FLOOD_TODO_BELOW)
    requires L0[c].flags & b != 0 && L0[c].flags & FLOOD_IN_USE != 0
    requires L1 == L0[c := L0[c].(flags := ClearBits(L0[c].flags, b))]
    requires Extends(L1, L2, img.h) && (L2 == L1 || Covered(L1) < Covered(L2))
    requires Covered(L2) <= Grid(img)
    requires RowDone(img, src, Covered(L2), L0[c].lpos, L0[c].rpos,
                     if b == FLOOD_TODO_ABOVE then L0[c].y - 1 else L0[c].y + 1)
    ensures |L0| <= |L2| && L2[c].flags == ClearBits(L0[c].flags, b)
    ensures Settled(img, src, L2, Covered(L2))
    ensures Progress(Grid(img) - Covered(L2), Pending(L2), Grid(img) - Covered(L0), Pending(L0))
  {
    SameExtentCovered(L0, L1);
    ClearTodoPending(L0, c, b);
    assert L1[c].flags & FLOOD_IN_USE == L0[c].flags & FLOOD_IN_USE;
    assert SameSegment(L1[c], L2[c]);
    SettledAfterCheck(img, src, L0, Covered(L0), c, b, L2, Covered(L2));
    if L2 != L1 {
      UncoveredShrinks(Grid(img), Covered(L0), Covered(L2));
    }
  }

  /** Once no segment has a pending check, the covered pixels form a closed set:
      left and right by maximality of the runs, up and down by `Settled`. */
  lemma SettledArenaIsClosed(img: Image, src: int, L: seq<FloodedLine>, chains: seq<seq<int>>)
    requires ArenaOk(img, src, L, chains) && Settled(img, src, L, Covered(L))
    requires forall i :: 0 <= i < |L| ==> !HasTodo(L[i])
    ensures Closed(img, src, Covered(L))
  {
    forall p, q | p in Covered(L) && Adjacent(p, q) && Matches(img, src, q)
      ensures q in Covered(L)
    {
      var i, x :| 0 <= i < |L| && L[i].lpos <= x <= L[i].rpos && p == (x, L[i].y);
      NeighbourCovered(img, src, L, chains, i, x, q);
    }
  }

  lemma NeighbourCovered(img: Image, src: int, L: seq<FloodedLine>, chains: seq<seq<int>>, i: int, x: int, q: Point)
    requires ArenaOk(img, src, L, chains) && Settled(img, src, L, Covered(L))
    requires 0 <= i < |L| && !HasTodo(L[i]) && L[i].lpos <= x <= L[i].rpos
    requires Adjacent((x, L[i].y), q) && Matches(img, src, q)
    ensures q in Covered(L)
  {
    OnOwnChain(img, src, L, chains, i);
    var s := L[i];
    if q.1 == s.y {
      assert IsMaxRun(img, src, s.lpos, s.rpos, s.y);
      assert s.lpos <= q.0 <= s.rpos;
    } else {
      assert s.flags != 0;
    }
  }

  /** A run reported after `trace0` shares no pixel with the runs of `trace0`. */
  lemma LaterRunsAreNew(img: Image, src: int, trace0: seq<HLine>, trace: seq<HLine>)
    requires img.Valid() && TraceOk(img, src, trace) && trace0 <= trace
    ensures forall j :: |trace0| <= j < |trace| ==>
      RunPixels(trace[j].x1, trace[j].x2, trace[j].y) !! TracePixels(trace0)
  {
    forall j, p | |trace0| <= j < |trace| && p in RunPixels(trace[j].x1, trace[j].x2, trace[j].y)
      ensures p !in TracePixels(trace0)
    {
      forall i | 0 <= i < |trace0| && trace0[i].y == p.1
        ensures !(trace0[i].x1 <= p.0 <= trace0[i].x2)
      {
        assert trace0[i] == trace[i];
      }
    }
  }

  lemma UncoveredShrinks(G: set<Point>, C1: set<Point>, C2: set<Point>)
    requires C1 < C2 && C2 <= G
    ensures G - C2 < G - C1
  {
    var p :| p in C2 && p !in C1;
    assert p in G - C1;
  }

  /** The pixels of the run's neighbouring row `y` that have the source colour
      are reachable: each is an edge neighbour of a covered pixel. */
  lemma RowBesideReachable(img: Image, src: int, seed: Point, L: seq<FloodedLine>, chains: seq<seq<int>>,
                           trace: seq<HLine>, c: int, y: int)
    requires FillOk(img, src, seed, L, chains, trace)
    requires 0 <= c < |L| && (y == L[c].y - 1 || y == L[c].y + 1)
    ensures forall x :: L[c].lpos <= x <= L[c].rpos && Matches(img, src, (x, y)) ==> Reachable(img, src, seed, (x, y))
  {
    forall x | L[c].lpos <= x <= L[c].rpos && Matches(img, src, (x, y))
      ensures Reachable(img, src, seed, (x, y))
    {
      assert (x, L[c].y) in Covered(L);
      ReachableStep(img, src, seed, (x, L[c].y), (x, y));
    }
  }

  /** Reporting more runs never drops a reported pixel. */
  lemma TracePixelsGrow(trace0: seq<HLine>, trace: seq<HLine>)
    requires trace0 <= trace
    ensures TracePixels(trace0) <= TracePixels(trace)
  {
    forall p | p in TracePixels(trace0)
      ensures p in TracePixels(trace)
    {
      var i, x :| 0 <= i < |trace0| && trace0[i].x1 <= x <= trace0[i].x2 && p == (x, trace0[i].y);
      assert trace[i] == trace0[i];
    }
  }

  /** `L` and `chains` are `L0` and `chains0` after flooder stored `seg`: in its
      row's head slot when that was empty, otherwise appended at index `|L0|` and
      linked from the last record of its row's chain. */
  ghost predicate StoredIn(L0: seq<FloodedLine>, chains0: seq<seq<int>>, seg: FloodedLine,
                           L: seq<FloodedLine>, chains: seq<seq<int>>)
  {
    && 0 <= seg.y < |L0| && seg.y < |chains0| && |chains0[seg.y]| > 0
    && if L0[seg.y].flags == 0 then
         L == L0[seg.y := seg] && chains == chains0
       else
         var tail := chains0[seg.y][|chains0[seg.y]| - 1];
         && 0 <= tail < |L0|
         && L == L0[tail := L0[tail].(next := |L0|)] + [seg]
         && chains == chains0[seg.y := chains0[seg.y] + [|L0|]]
  }

  /** flooder's store step, whichever slot it used, keeps the fill consistent. */
  lemma RecordSegment(img: Image, src: int, seed: Point, L0: seq<FloodedLine>, chains0: seq<seq<int>>,
                      trace0: seq<HLine>, seg: FloodedLine, x: int, L: seq<FloodedLine>, chains: seq<seq<int>>)
    requires FillOk(img, src, seed, L0, chains0, trace0)
    requires 0 <= seg.y < img.h && seg.flags == SegmentFlags(seg.y, img.h) && seg.next == 0
    requires IsMaxRun(img, src, seg.lpos, seg.rpos, seg.y) && seg.lpos <= x <= seg.rpos
    requires (x, seg.y) !in Covered(L0) && Reachable(img, src, seed, (x, seg.y))
    requires StoredIn(L0, chains0, seg, L, chains)
    ensures FillOk(img, src, seed, L, chains, trace0 + [HLine(seg.lpos, seg.y, seg.rpos)])
    ensures Covered(L) == Covered(L0) + RunPixels(seg.lpos, seg.rpos, seg.y)
    ensures Extends(L0, L, img.h)
  {
    if L0[seg.y].flags == 0 {
      RecordInHead(img, src, seed, L0, chains0, trace0, seg, x);
    } else {
      RecordAtTail(img, src, seed, L0, chains0, trace0, seg, x, chains0[seg.y][|chains0[seg.y]| - 1]);
    }
  }

  lemma ProgressThenProgress(g2: set<Point>, p2: set<(int, bv16)>, g1: set<Point>, p1: set<(int, bv16)>,
                             g0: set<Point>, p0: set<(int, bv16)>)
    requires NoRegress(g2, p2, g1, p1) && NoRegress(g1, p1, g0, p0)
    ensures NoRegress(g2, p2, g0, p0)
    ensures Progress(g2, p2, g1, p1) || Progress(g1, p1, g0, p0) ==> Progress(g2, p2, g0, p0)
  {
  }

  /** Every column of a record is covered. */
  lemma RecordCovered(L: seq<FloodedLine>, c: int)
    requires 0 <= c < |L|
    ensures forall p :: L[c].lpos <= p <= L[c].rpos ==> (p, L[c].y) in Covered(L)
  {
  }

  /** A pixel that does not have the source colour inside the image is not covered. */
  lemma UnmatchedNotCovered(img: Image, src: int, L: seq<FloodedLine>, chains: seq<seq<int>>, p: Point)
    requires ArenaOk(img, src, L, chains) && !Matches(img, src, p)
    ensures p !in Covered(L)
  {
    if p in Covered(L) {
      var i, x :| 0 <= i < |L| && L[i].lpos <= x <= L[i].rpos && p == (x, L[i].y);
      OnOwnChain(img, src, L, chains, i);
    }
  }
}
