/** The scanline flood fill of algofill.c. A fill reports each horizontal run it
    paints through the AlgoHLine callback and remembers the run as a FLOODED_LINE
    record in a scratch arena: slots `0..h-1` head one chain of records per row,
    further records are appended at `flood_count` and linked through `next`. A
    record's TODO_ABOVE / TODO_BELOW flags say that the row above / below its run
    still has to be scanned; the fill sweeps the arena until no flag is left. */
module AlgoFill {
  import opened Raster
  import opened FloodLines

  /** The pixel scan at the start of flooder: whether pixel (x, y) has colour `src`
      and, if it has, the maximal run of that colour through it. */
  method FindRun(img: Image, src: int, x: int, y: int) returns (matched: bool, left: int, right: int)
    requires img.Valid() && img.InBounds(x, y)
    ensures matched <==> img.Pixel(x, y) == src
    ensures matched ==> left <= x <= right && IsMaxRun(img, src, left, right, y)
  {
    // a pixel of another colour: nothing to fill here
    if img.Pixel(x, y) != src {
      return false, 0, 0;
    }
    // extend the run to the left while the colour holds
    left := x - 1;
    while left >= 0
      invariant -1 <= left < x
      invariant forall i :: left < i <= x ==> img.Pixel(i, y) == src
    {
      if img.Pixel(left, y) != src {
        break;
      }
      left := left - 1;
    }
    // then to the right
    right := x + 1;
    while right < img.w
      invariant x < right <= img.w
      invariant forall i :: x <= i < right ==> img.Pixel(i, y) == src
    {
      if img.Pixel(right, y) != src {
        break;
      }
      right := right + 1;
    }
    matched, left, right := true, left + 1, right - 1;
  }

  /** One run of algo_floodfill: the image, the seed and its colour, the scratch
      arena with its `flood_count`, and the callback calls made so far. */
  class FloodFill {
    const img: Image
    const seedX: int
    const seedY: int
    /** src_color: the colour being replaced, read from the seed pixel. */
    const srcColor: int
    /** The scratch memory, as the sequence of FLOODED_LINE records in use. */
    var scratch: seq<FloodedLine>
    /** flood_count: the number of records in use. */
    var floodCount: int
    /** The calls made so far to the AlgoHLine callback, in order. */
    var trace: seq<HLine>
    /** For each row, the arena indices met when following its `next` chain. */
    ghost var chains: seq<seq<int>>

    ghost predicate Valid()
      reads this
    {
      && img.Valid() && floodCount == |scratch|
      && FillOk(img, srcColor, (seedX, seedY), scratch, chains, trace)
      && img.InBounds(seedX, seedY) && srcColor == img.Pixel(seedX, seedY)
    }

    /** The parts of `Valid()`. The longer method bodies start with a `hide` of the
        arena predicates only to keep the solver's work small; they call this lemma
        (and FloodLines.FillParts) to get back the facts they need. */
    lemma ValidParts()
      requires Valid()
      ensures img.Valid() && floodCount == |scratch|
      ensures FillOk(img, srcColor, (seedX, seedY), scratch, chains, trace)
      ensures img.InBounds(seedX, seedY) && srcColor == img.Pixel(seedX, seedY)
    {
    }

    /** Every cleared TODO flag has its neighbouring row fully covered. */
    ghost predicate IsSettled()
      reads this
      requires Valid()
    {
      Settled(img, srcColor, scratch, Covered(scratch))
    }

    /** The pixels of the image not yet covered. */
    ghost function GridLeft(): set<Point>
      reads this
    {
      Grid(img) - Covered(scratch)
    }

    /** The TODO flags still set. */
    ghost function PendingChecks(): set<(int, bv16)>
      reads this
    {
      Pending(scratch)
    }

    /** Sampling the seed colour and setting up the arena: `h` empty row heads. */
    constructor (img: Image, x: int, y: int)
      requires img.Valid() && img.InBounds(x, y)
      ensures this.img == img && seedX == x && seedY == y && srcColor == img.Pixel(x, y)
      ensures floodCount == img.h && trace == []
      ensures scratch == seq(img.h, _ => EmptyLine(y))
      ensures Valid() && IsSettled() && Covered(scratch) == {}
    {
      this.img := img;
      seedX, seedY := x, y;
      srcColor := img.Pixel(x, y);
      var lines: seq<FloodedLine> := [];
      var c := 0;
      while c < img.h
        invariant 0 <= c <= img.h && |lines| == c
        invariant forall i :: 0 <= i < c ==> lines[i] == EmptyLine(y)
      {
        lines := lines + [FloodedLine(0, SHRT_MAX, SHRT_MIN, y, 0)];
        c := c + 1;
      }
      scratch := lines;
      floodCount := img.h;
      trace := [];
      chains := seq(img.h, r => [r]);
      EmptyArena(img, img.Pixel(x, y), (x, y), lines);
    }

    /** flooder: fill the run of the source colour through (x, y) on row y, report
        it, and record it at the end of row y's chain (in the head slot when the
        row has no segment yet). Returns the first column after what it dealt
        with. The start pixel is one no segment covers yet and, when it has the
        source colour, one 4-connected to the seed. */
    method Flooder(x: int, y: int) returns (next: int)
      requires Valid()
      requires 0 <= x < img.w && 0 <= y < img.h
      requires (x, y) !in Covered(scratch)
      requires img.Pixel(x, y) == srcColor ==> Reachable(img, srcColor, (seedX, seedY), (x, y))
      modifies this
      ensures Valid()
      ensures next > x
      ensures img.Pixel(x, y) != srcColor ==>
        next == x + 1 && scratch == old(scratch) && chains == old(chains) && trace == old(trace)
      ensures img.Pixel(x, y) == srcColor ==>
        && |trace| == |old(trace)| + 1 && trace[..|old(trace)|] == old(trace)
        && var t := trace[|old(trace)|];
        && t.y == y && t.x1 <= x <= t.x2 && IsMaxRun(img, srcColor, t.x1, t.x2, y)
        && next == t.x2 + 2
        && Covered(scratch) == old(Covered(scratch)) + RunPixels(t.x1, t.x2, y)
        && StoredIn(old(scratch), old(chains), FloodedLine(SegmentFlags(y, img.h), t.x1, t.x2, y, 0), scratch, chains)
      ensures Extends(old(scratch), scratch, img.h)
    {
      var matched, left, right := FindRun(img, srcColor, x, y);
      if !matched {
        return x + 1;
      }
      ghost var L, trace0 := scratch, trace;
      ghost var seg := FloodedLine(SegmentFlags(y, img.h), left, right, y, 0);
      // report the run through the callback
      trace := trace + [HLine(left, y, right)];
      // record it as a segment of row y
      assert ChainOk(L, chains[y], y, img.h);
      StoreSegment(left, right, y);
      RecordSegment(img, srcColor, (seedX, seedY), L, old(chains), trace0, seg, x, scratch, chains);
      next := right + 2;
    }

    /** The second half of flooder: record the run `left..right` of row `y` as a
        segment carrying the TODO flags that apply, in the row's head slot when it
        is empty and at the end of the row's chain otherwise. */
    method StoreSegment(left: int, right: int, y: int)
      requires floodCount == |scratch| && 0 <= y < |chains| && 0 < img.h
      requires ChainOk(scratch, chains[y], y, img.h)
      modifies this`scratch, this`floodCount, this`chains
      ensures floodCount == |scratch|
      ensures StoredIn(old(scratch), old(chains), FloodedLine(SegmentFlags(y, img.h), left, right, y, 0), scratch, chains)
    {
      ghost var L := scratch;
      ghost var seg := FloodedLine(SegmentFlags(y, img.h), left, right, y, 0);
      var c := y;
      if scratch[c].flags != 0 {
        c := ChainEnd(y);
        ghost var L1 := L[c := L[c].(next := |L|)];
        chains := chains[y := chains[y] + [|L|]];
        c := LinkNew(c);
        StoreFlags(c, left, right, y);
        assert scratch == L1 + [seg];
      } else {
        StoreFlags(c, left, right, y);
      }
    }

    /** flooder's walk to the last record of row `y`'s chain, following `next`
        until it is 0. */
    method ChainEnd(y: int) returns (c: int)
      requires 0 <= y < |chains| && 0 < img.h
      requires ChainOk(scratch, chains[y], y, img.h)
      ensures c == chains[y][|chains[y]| - 1]
      ensures 0 <= c < |scratch| && scratch[c].next == 0
    {
      ghost var ch := chains[y];
      forall j | 0 <= j < |ch| - 1
        ensures scratch[ch[j]].next != 0
      {
        assert scratch[ch[j]].next == ch[j + 1] >= img.h;
      }
      c := y;
      ghost var k := 0;
      while scratch[c].next != 0
        invariant 0 <= k < |ch| && c == ch[k]
        decreases |ch| - k
      {
        c := scratch[c].next;
        k := k + 1;
      }
    }

    /** _grow_scratch_mem: make room for `size` records, keeping the old ones. The
        new slots hold a placeholder until they are written. */
    method GrowScratchMem(size: int)
      modifies this`scratch
      ensures |scratch| == if size > old(|scratch|) then size else old(|scratch|)
      ensures scratch[..old(|scratch|)] == old(scratch)
    {
      if size > |scratch| {
        scratch := scratch + seq(size - |scratch|, _ => FloodedLine(0, 0, 0, 0, 0));
      }
    }

    /** flooder's step for a row that already has segments: link a new record at
        index `flood_count` after the chain's last record `tail`, and make room
        for it. */
    method LinkNew(tail: int) returns (c: int)
      requires 0 <= tail < floodCount == |scratch|
      modifies this`scratch, this`floodCount
      ensures c == old(floodCount) && floodCount == c + 1 == |scratch|
      ensures scratch[..c] == old(scratch)[tail := old(scratch[tail]).(next := c)]
    {
      scratch := scratch[tail := scratch[tail].(next := floodCount)];
      c := floodCount;
      floodCount := floodCount + 1;
      GrowScratchMem(floodCount);
    }

    /** The last lines of flooder: fill in record `c` as a fresh segment of row `y`. */
    method StoreFlags(c: int, left: int, right: int, y: int)
      requires 0 <= c < |scratch|
      modifies this`scratch
      ensures scratch == old(scratch)[c := FloodedLine(SegmentFlags(y, img.h), left, right, y, 0)]
    {
      var flags := FLOOD_IN_USE;
      if y > 0 {
        flags := flags | FLOOD_TODO_ABOVE;
      }
      if y + 1 < img.h {
        flags := flags | FLOOD_TODO_BELOW;
      }
      scratch := scratch[c := FloodedLine(flags, left, right, y, 0)];
    }

    /** The chain walk of check_flood_line: look for a segment of row `y` that
        contains column `x`, following `next` from head slot `y`. */
    method SegmentAt(y: int, x: int) returns (found: bool, c: int)
      requires Valid() && 0 <= y < img.h
      ensures 0 <= c < |scratch|
      ensures found ==> scratch[c].y == y && scratch[c].lpos <= x <= scratch[c].rpos && SegmentOk(img, srcColor, scratch[c])
      ensures !found ==> (x, y) !in Covered(scratch)
    {
      hide FillOk, ArenaOk, Covered, TracePixels, TraceOk, StoredIn, Reachable;
      ValidParts();
      FillParts(img, srcColor, (seedX, seedY), scratch, chains, trace);
      ghost var ch := chains[y];
      assert ChainOk(scratch, ch, y, img.h);
      forall j | 0 <= j < |ch| - 1
        ensures scratch[ch[j]].next != 0
      {
        assert scratch[ch[j]].next == ch[j + 1] >= img.h;
      }
      c := y;
      ghost var k := 0;
      while true
        invariant 0 <= k < |ch| && c == ch[k]
        invariant forall j :: 0 <= j < k ==> !(scratch[ch[j]].lpos <= x <= scratch[ch[j]].rpos)
        decreases |ch| - k
      {
        if x >= scratch[c].lpos && x <= scratch[c].rpos {
          OnOwnChain(img, srcColor, scratch, chains, c);
          if k == 0 {
            assert HeadOk(img, srcColor, scratch[y], y);
          }
          return true, c;
        }
        if scratch[c].next == 0 {
          NotCoveredOffChain(img, srcColor, scratch, chains, x, y);
          return false, c;
        }
        c := scratch[c].next;
        k := k + 1;
      }
    }

    /** check_flood_line: fill every run of the source colour that meets columns
        `left..right` of row `y` and is not filled yet, skipping the segments
        already recorded there. The result is TRUE exactly when flooder was
        called, that is when some column of the span starts an uncovered stretch. */
    method CheckFloodLine(y: int, left: int, right: int) returns (ret: bool)
      requires Valid()
      requires 0 <= y < img.h && 0 <= left && right < img.w
      requires forall x :: left <= x <= right && img.Pixel(x, y) == srcColor ==>
        Reachable(img, srcColor, (seedX, seedY), (x, y))
      modifies this
      ensures Valid()
      ensures Extends(old(scratch), scratch, img.h) && old(Covered(scratch)) <= Covered(scratch)
      ensures old(trace) <= trace
      ensures RowDone(img, srcColor, Covered(scratch), left, right, y)
      ensures ret <==> exists x :: left <= x <= right && (x, y) !in old(Covered(scratch)) &&
                                   (x == left || (x - 1, y) !in old(Covered(scratch)))
      ensures !ret ==> scratch == old(scratch) && chains == old(chains) && trace == old(trace)
      ensures (scratch == old(scratch) && chains == old(chains) && trace == old(trace)) || old(Covered(scratch)) < Covered(scratch)
      ensures forall i :: |old(trace)| <= i < |trace| ==>
        && trace[i].y == y && trace[i].x1 <= right && left <= trace[i].x2
        && RunPixels(trace[i].x1, trace[i].x2, y) !! old(Covered(scratch))
    {
      hide FillOk, ArenaOk, Covered, TracePixels, TraceOk, StoredIn, Reachable;
      ValidParts();
      ghost var L0, chains0, trace0 := scratch, chains, trace;
      ghost var C0 := Covered(L0);
      FillParts(img, srcColor, (seedX, seedY), L0, chains0, trace0);
      ret := false;
      var x := left;
      while x <= right
        invariant Valid()
        invariant left <= x
        invariant Extends(L0, scratch, img.h) && C0 <= Covered(scratch) && trace0 <= trace
        invariant forall p :: left <= p < x && p <= right && img.Pixel(p, y) == srcColor ==> (p, y) in Covered(scratch)
        invariant !ret ==> scratch == L0 && chains == chains0 && trace == trace0
        invariant !ret ==> x == left || (x - 1, y) !in C0
        invariant !ret ==> forall p :: left <= p < x && p <= right && (p, y) !in C0 ==> p > left && (p - 1, y) in C0
        invariant ret ==> exists p :: left <= p <= right && (p, y) !in C0 && (p == left || (p - 1, y) !in C0)
        invariant (scratch == L0 && chains == chains0 && trace == trace0) || C0 < Covered(scratch)
        invariant forall i :: |trace0| <= i < |trace| ==> trace[i].y == y && trace[i].x1 <= right && left <= trace[i].x2
        decreases right - x
      {
        ghost var L1, x0 := scratch, x;
        var flooded;
        x, flooded := CheckAt(y, x, right);
        if flooded && !ret {
          // x0 starts the first uncovered stretch of the span
          assert left <= x0 <= right && (x0, y) !in C0 && (x0 == left || (x0 - 1, y) !in C0);
        }
        ret := ret || flooded;
        ExtendsTransitive(L0, L1, scratch, img.h);
        ScanStep(img, srcColor, Covered(L1), Covered(scratch), left, right, y, x0, x);
      }
      FillParts(img, srcColor, (seedX, seedY), scratch, chains, trace);
      LaterRunsAreNew(img, srcColor, trace0, trace);
    }

    /** One turn of check_flood_line's loop at column `x`: skip the segment of row
        `y` that contains `x`, or call flooder when there is none. Returns the next
        column and whether flooder was called. */
    method CheckAt(y: int, x: int, right: int) returns (next: int, flooded: bool)
      requires Valid() && 0 <= y < img.h && 0 <= x <= right < img.w
      requires img.Pixel(x, y) == srcColor ==> Reachable(img, srcColor, (seedX, seedY), (x, y))
      modifies this
      ensures Valid()
      ensures next > x
      ensures Extends(old(scratch), scratch, img.h) && old(Covered(scratch)) <= Covered(scratch) && old(trace) <= trace
      ensures forall p :: x <= p < next - 1 ==> (p, y) in Covered(scratch)
      ensures next - 1 < img.w ==> img.Pixel(next - 1, y) != srcColor
      ensures flooded <==> (x, y) !in old(Covered(scratch))
      ensures !flooded ==>
        && scratch == old(scratch) && chains == old(chains) && trace == old(trace)
        && (next - 1, y) !in old(Covered(scratch))
      ensures flooded ==>
        || (scratch == old(scratch) && chains == old(chains) && trace == old(trace))
        || old(Covered(scratch)) < Covered(scratch)
      ensures |trace| <= |old(trace)| + 1
      ensures |trace| > |old(trace)| ==>
        trace[|old(trace)|].y == y && trace[|old(trace)|].x1 <= x <= trace[|old(trace)|].x2
    {
      hide FillOk, ArenaOk, Covered, TracePixels, TraceOk, StoredIn, Reachable;
      ValidParts();
      var found, c := SegmentAt(y, x);
      if found {
        RecordCovered(scratch, c);
        next, flooded := scratch[c].rpos + 2, false;
        FillParts(img, srcColor, (seedX, seedY), scratch, chains, trace);
        UnmatchedNotCovered(img, srcColor, scratch, chains, (next - 1, y));
      } else {
        ghost var n0 := |trace|;
        next := Flooder(x, y);
        flooded := true;
        if img.Pixel(x, y) == srcColor {
          RunInside(trace[n0].x1, trace[n0].x2, y, Covered(scratch));
        }
      }
    }

    /** The flag-clearing half of one probe of the sweep: `flags &= ~b` on segment
        `c`. Returns the segment as it was; the pixels of the source colour beside
        its run on that side are 4-connected to the seed. */
    method ClearFlag(c: int, b: bv16) returns (p: FloodedLine, y: int)
      requires Valid()
      requires 0 <= c < floodCount && (b == FLOOD_TODO_ABOVE || b == FLOOD_TODO_BELOW) && scratch[c].flags & b != 0
      modifies this`scratch
      ensures Valid()
      ensures p == old(scratch[c]) && scratch == old(scratch)[c := p.(flags := ClearBits(p.flags, b))]
      ensures SegmentOk(img, srcColor, p) && p.flags & FLOOD_IN_USE != 0
      ensures y == (if b == FLOOD_TODO_BELOW then p.y + 1 else p.y - 1) && 0 <= y < img.h
      ensures forall x :: p.lpos <= x <= p.rpos && Matches(img, srcColor, (x, y)) ==>
        Reachable(img, srcColor, (seedX, seedY), (x, y))
    {
      hide FillOk, ArenaOk, Covered, TracePixels, TraceOk, StoredIn, Reachable, ClearBits;
      ValidParts();
      p := scratch[c];
      ClearTodo(img, srcColor, (seedX, seedY), scratch, chains, trace, c, b);
      scratch := scratch[c := p.(flags := ClearBits(p.flags, b))];
      y := if b == FLOOD_TODO_BELOW then p.y + 1 else p.y - 1;
      RowBesideReachable(img, srcColor, (seedX, seedY), scratch, chains, trace, c, y);
    }

    /** One probe of the sweep in algo_floodfill: clear TODO flag `b` of segment
        `c` and check the row below (TODO_BELOW) or above (TODO_ABOVE) its run. */
    method ClearAndCheck(c: int, b: bv16) returns (found: bool)
      requires Valid() && IsSettled()
      requires 0 <= c < floodCount && (b == FLOOD_TODO_ABOVE || b == FLOOD_TODO_BELOW) && scratch[c].flags & b != 0
      modifies this
      ensures Valid() && IsSettled()
      ensures old(floodCount) <= floodCount && old(trace) <= trace
      ensures scratch[c].flags == ClearBits(old(scratch[c].flags), b)
      ensures Progress(GridLeft(), PendingChecks(), old(GridLeft()), old(PendingChecks()))
      ensures !found ==>
        && trace == old(trace)
        && scratch == old(scratch)[c := old(scratch[c]).(flags := ClearBits(old(scratch[c].flags), b))]
    {
      hide FillOk, ArenaOk, HeadOk, ChainOk, Covered, TracePixels, TraceOk, StoredIn, Reachable, IsPath,
           Extends, RowDone, Settled, Grid, Pending, Progress, RunPixels, ClearBits;
      ghost var L0 := scratch;
      var p, y := ClearFlag(c, b);
      ghost var L1 := scratch;
      found := CheckFloodLine(y, p.lpos, p.rpos);
      ValidParts();
      FillParts(img, srcColor, (seedX, seedY), scratch, chains, trace);
      ProbeDone(img, srcColor, L0, c, b, L1, scratch);
    }

    /** One pass of the do-while loop of algo_floodfill over all records, with
        its step back after a successful probe above a row-head segment. */
    method Sweep() returns (done: bool)
      requires Valid() && IsSettled()
      modifies this
      ensures Valid() && IsSettled()
      ensures old(trace) <= trace
      ensures NoRegress(GridLeft(), PendingChecks(), old(GridLeft()), old(PendingChecks()))
      ensures !done ==> Progress(GridLeft(), PendingChecks(), old(GridLeft()), old(PendingChecks()))
      ensures done ==> forall i :: 0 <= i < |scratch| ==> !HasTodo(scratch[i])
    {
      hide FillOk, ArenaOk, Covered, TracePixels, TraceOk, StoredIn, Reachable;
      ValidParts();
      ghost var G0, P0 := GridLeft(), PendingChecks();
      done := true;
      var c := 0;
      while c < floodCount
        invariant Valid() && IsSettled()
        invariant 0 <= c <= floodCount
        invariant old(trace) <= trace
        invariant NoRegress(GridLeft(), PendingChecks(), G0, P0)
        invariant !done ==> Progress(GridLeft(), PendingChecks(), G0, P0)
        invariant done ==> forall i :: 0 <= i < c ==> !HasTodo(scratch[i])
        decreases GridLeft(), PendingChecks(), floodCount - c
      {
        ghost var G1, P1 := GridLeft(), PendingChecks();
        var p := scratch[c];
        // pending work on the row below
        if p.flags & FLOOD_TODO_BELOW != 0 {
          var found := ClearAndCheck(c, FLOOD_TODO_BELOW);
          ProgressThenProgress(GridLeft(), PendingChecks(), G1, P1, G0, P0);
          if found {
            done := false;
          }
          p := scratch[c];
        }
        ghost var G2, P2 := GridLeft(), PendingChecks();
        // pending work on the row above
        if p.flags & FLOOD_TODO_ABOVE != 0 {
          var found := ClearAndCheck(c, FLOOD_TODO_ABOVE);
          ProgressThenProgress(GridLeft(), PendingChecks(), G2, P2, G0, P0);
          ProgressThenProgress(GridLeft(), PendingChecks(), G2, P2, G1, P1);
          if found {
            done := false;
            // revisit the previous row head on the next turn
            if c < img.h && c > 0 {
              c := c - 2;
            }
          }
        }
        c := c + 1;
      }
    }

    /** The do-while loop of algo_floodfill: sweep until a pass in which no
        check_flood_line call returned TRUE, that is, one that called flooder nowhere. */
    method Run()
      requires Valid() && IsSettled()
      modifies this
      ensures Valid() && IsSettled()
      ensures old(trace) <= trace
      ensures forall i :: 0 <= i < |scratch| ==> !HasTodo(scratch[i])
      ensures Closed(img, srcColor, Covered(scratch))
    {
      var done := false;
      while !done
        invariant Valid() && IsSettled()
        invariant old(trace) <= trace
        invariant done ==> forall i :: 0 <= i < |scratch| ==> !HasTodo(scratch[i])
        decreases GridLeft(), PendingChecks(), !done
      {
        done := Sweep();
      }
      SettledArenaIsClosed(img, srcColor, scratch, chains);
    }
  }

  /** algo_floodfill: fill the 4-connected region of the seed's colour around
      (x, y), reporting it run by run through the callback. A seed outside the
      image reports nothing. Otherwise the first call is the seed's run, every call
      is a maximal run of the seed colour, calls on one row never overlap, and
      together they cover exactly the pixels 4-connected to the seed through that
      colour. */
  method AlgoFloodfill(img: Image, x: int, y: int) returns (calls: seq<HLine>)
    requires img.Valid()
    ensures !img.InBounds(x, y) ==> calls == []
    ensures img.InBounds(x, y) ==>
      && |calls| > 0 && calls[0].y == y && calls[0].x1 <= x <= calls[0].x2
      && TraceOk(img, img.Pixel(x, y), calls)
      && forall p :: p in TracePixels(calls) <==> Reachable(img, img.Pixel(x, y), (x, y), p)
  {
    // a seed outside the image fills nothing
    if x < 0 || x >= img.w || y < 0 || y >= img.h {
      return [];
    }
    var fill := new FloodFill(img, x, y);
    ghost var src := fill.srcColor;
    ghost var L0 := fill.scratch;
    ReachableSeed(img, src, (x, y));
    // the seed's own run
    var _ := fill.Flooder(x, y);
    ghost var first := fill.trace;
    SettledGrows(img, src, L0, {}, fill.scratch, Covered(fill.scratch));
    // sweep until a pass calls flooder nowhere
    fill.Run();
    calls := fill.trace;
    TracePixelsGrow(first, calls);
    assert (x, y) in TracePixels(first);
    forall p | Reachable(img, src, (x, y), p)
      ensures p in TracePixels(calls)
    {
      ClosedSetHoldsRegion(img, src, Covered(fill.scratch), (x, y), p);
    }
  }
}
