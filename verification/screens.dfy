/**
 * The monitor grid of the polling generation (screens.c,
 * `gen_smart_touch_screens`). The reported monitors are cut into a grid of
 * at most 16 x 16 cells: the cut lines of each axis are every monitor's
 * start and extent (its width or height, not its end) plus the far edge of
 * the desktop, sorted and compacted. Each cell remembers the last monitor
 * covering its top-left corner, and each populated cell marks the sides on
 * which another populated cell lies with the dummy switch id 200.
 *
 * `ctx` is a zero-initialised global and the routine runs once at start-up,
 * so every cell or band the routine does not write is zero.
 */
module Screens {
  import opened Common
  import opened Display
  import Utilities

  const MONITOR_LIMIT: nat := 16
  /** The dummy switch id written into an inner side. */
  const WS: int := 200
  /** The value of a side that nothing has been found next to. */
  const SIDE: int := 255

  /** `struct my_monitors`. A cell is populated when a monitor covers it. */
  datatype Cell = Cell(index: int, monx: int, mony: int, monr: int, monl: int, monu: int, mond: int)

  const Blank: Cell := Cell(0, 0, 0, 0, 0, 0, 0)

  /** `struct screen_width` / `struct screen_height`: the field the source
      calls `width` (`height`) holds the band's END coordinate. */
  datatype Band = Band(start: int, end: int, ord: int)

  /** The part of `ctx` the routine fills in. */
  datatype Layout = Layout(
    count: nat,
    monitors: seq<MonitorInfo>,
    grid: seq<seq<Cell>>,
    screenW: seq<Band>,
    screenH: seq<Band>,
    totalW: int,
    totalH: int,
    ws: int)

  datatype Axis = Horizontal | Vertical

  function Start(m: MonitorInfo, a: Axis): int
  {
    if a == Horizontal then m.x else m.y
  }

  function Extent(m: MonitorInfo, a: Axis): int
  {
    if a == Horizontal then m.width else m.height
  }

  function Starts(ms: seq<MonitorInfo>, a: Axis): (s: seq<int>)
    ensures |s| == |ms| && forall i :: 0 <= i < |ms| ==> s[i] == Start(ms[i], a)
  {
    seq(|ms|, i requires 0 <= i < |ms| => Start(ms[i], a))
  }

  function Ends(ms: seq<MonitorInfo>, a: Axis): (s: seq<int>)
    ensures |s| == |ms| && forall i :: 0 <= i < |ms| ==> s[i] == Start(ms[i], a) + Extent(ms[i], a)
  {
    seq(|ms|, i requires 0 <= i < |ms| => Start(ms[i], a) + Extent(ms[i], a))
  }

  ghost predicate Shaped(g: seq<seq<Cell>>)
  {
    |g| == MONITOR_LIMIT && forall r :: 0 <= r < MONITOR_LIMIT ==> |g[r]| == MONITOR_LIMIT
  }

  // ---------------------------------------------------------------------
  // Monitor count and desktop bounds

  /** `monitors_count`: the reported number capped at 16, or 0 when the
      query returned nothing. */
  function MonitorCount(reply: Option<seq<MonitorInfo>>): (n: nat)
    ensures n <= MONITOR_LIMIT
    ensures reply.None? ==> n == 0
    ensures reply.Some? ==> n <= |reply.value| && (n < MONITOR_LIMIT ==> n == |reply.value|)
  {
    match reply
    case None => 0
    case Some(ms) => if |ms| > MONITOR_LIMIT then MONITOR_LIMIT else |ms|
  }

  /** The monitors the routine looks at: the first `monitors_count`. */
  function Counted(reply: Option<seq<MonitorInfo>>): (ms: seq<MonitorInfo>)
    ensures |ms| == MonitorCount(reply)
  {
    match reply
    case None => []
    case Some(all) => all[..MonitorCount(reply)]
  }

  /** `xmax`/`ymax`: a running maximum that starts at 0 and is replaced by
      every value at least as large. */
  function Highest(vs: seq<int>): (m: int)
    ensures m >= 0
    ensures forall i :: 0 <= i < |vs| ==> vs[i] <= m
    ensures m == 0 || m in vs
    decreases |vs|
  {
    if |vs| == 0 then 0
    else
      var m := Highest(vs[..|vs| - 1]);
      if vs[|vs| - 1] >= m then vs[|vs| - 1] else m
  }

  /** `xmin`/`ymin`: a running minimum that starts at 0. */
  function Lowest(vs: seq<int>): (m: int)
    ensures m <= 0
    ensures forall i :: 0 <= i < |vs| ==> m <= vs[i]
    ensures m == 0 || m in vs
    decreases |vs|
  {
    if |vs| == 0 then 0
    else
      var m := Lowest(vs[..|vs| - 1]);
      if vs[|vs| - 1] <= m then vs[|vs| - 1] else m
  }

  // ---------------------------------------------------------------------
  // Step arrays

  /** The 16-slot step array before sorting: start and extent of each
      monitor in turn, then the far edge `hi`, then zeros. The far edge
      lands in slot 2·count, which exists only for at most 7 monitors. */
  function StepArray(ms: seq<MonitorInfo>, a: Axis, hi: int): (s: seq<int>)
    requires 2 * |ms| < MONITOR_LIMIT
    ensures |s| == MONITOR_LIMIT
  {
    seq(MONITOR_LIMIT, k requires 0 <= k < MONITOR_LIMIT =>
      if k < 2 * |ms| then (if k % 2 == 0 then Start(ms[k / 2], a) else Extent(ms[k / 2], a))
      else if k == 2 * |ms| then hi
      else 0)
  }

  /** The values a step array can hold. */
  ghost predicate IsStep(v: int, ms: seq<MonitorInfo>, a: Axis, hi: int)
  {
    v == 0 || v == hi || exists i :: 0 <= i < |ms| && (v == Start(ms[i], a) || v == Extent(ms[i], a))
  }

  /** The step array holds exactly the starts, the extents, the far edge and
      the zero padding. */
  lemma StepArrayValues(ms: seq<MonitorInfo>, a: Axis, hi: int)
    requires 2 * |ms| < MONITOR_LIMIT
    ensures forall v :: v in StepArray(ms, a, hi) <==> IsStep(v, ms, a, hi)
  {
    var s := StepArray(ms, a, hi);
    assert s[MONITOR_LIMIT - 1] == 0;
    assert s[2 * |ms|] == hi;
    forall i | 0 <= i < |ms|
      ensures Start(ms[i], a) in s && Extent(ms[i], a) in s
    {
      assert s[2 * i] == Start(ms[i], a);
      assert s[2 * i + 1] == Extent(ms[i], a);
    }
  }

  /** What sorting and compacting a step array leaves: the distinct step
      values ascending in the first `kept` slots, 0xFFFF in the rest. */
  ghost predicate CutsOf(cuts: seq<int>, kept: nat, ms: seq<MonitorInfo>, a: Axis, hi: int)
  {
    |cuts| == MONITOR_LIMIT && 1 <= kept <= MONITOR_LIMIT
    && Utilities.StrictlyIncreasing(cuts[..kept])
    && (forall v :: v in cuts[..kept] <==> IsStep(v, ms, a, hi))
    && (forall i :: kept <= i < MONITOR_LIMIT ==> cuts[i] == Utilities.FILL)
  }

  /** Filling, sorting and compacting one step array. */
  method Cuts(ms: seq<MonitorInfo>, a: Axis, hi: int) returns (cuts: seq<int>, kept: nat)
    requires 2 * |ms| < MONITOR_LIMIT
    ensures CutsOf(cuts, kept, ms, a, hi)
  {
    var steps := StepArray(ms, a, hi);
    StepArrayValues(ms, a, hi);
    cuts, kept := Utilities.SortAndCompact(steps);
  }

  // ---------------------------------------------------------------------
  // Grid fill

  /** Half-open containment used by the fill. */
  predicate Covers(m: MonitorInfo, x: int, y: int)
  {
    m.x <= x < m.x + m.width && m.y <= y < m.y + m.height
  }

  /** The monitor the fill loop leaves in a cell: every covering monitor
      overwrites the cell, so the last one wins. */
  function Owner(ms: seq<MonitorInfo>, x: int, y: int): (o: Option<nat>)
    ensures o.Some? ==> o.value < |ms| && Covers(ms[o.value], x, y)
    ensures o.Some? ==> forall j :: o.value < j < |ms| ==> !Covers(ms[j], x, y)
    ensures o.None? ==> forall j :: 0 <= j < |ms| ==> !Covers(ms[j], x, y)
    decreases |ms|
  {
    if |ms| == 0 then None
    else if Covers(ms[|ms| - 1], x, y) then Some(|ms| - 1)
    else Owner(ms[..|ms| - 1], x, y)
  }

  /** One cell after the fill loop; `n` is the number of steps (2·count). */
  function FillCell(ms: seq<MonitorInfo>, sx: seq<int>, sy: seq<int>, n: nat, r: nat, c: nat): Cell
    requires |sx| == MONITOR_LIMIT && |sy| == MONITOR_LIMIT && n < MONITOR_LIMIT - 1
    requires r < MONITOR_LIMIT && c < MONITOR_LIMIT
  {
    if c < n && r < n then
      match Owner(ms, sx[c], sy[r])
      case Some(i) => Cell(i, sx[c + 1] - sx[c], sy[r + 1] - sy[r], SIDE, SIDE, SIDE, SIDE)
      case None => Blank
    else Blank
  }

  function Fill(ms: seq<MonitorInfo>, sx: seq<int>, sy: seq<int>): (g: seq<seq<Cell>>)
    requires |sx| == MONITOR_LIMIT && |sy| == MONITOR_LIMIT && 2 * |ms| < MONITOR_LIMIT
    ensures Shaped(g)
  {
    seq(MONITOR_LIMIT, r requires 0 <= r < MONITOR_LIMIT =>
      seq(MONITOR_LIMIT, c requires 0 <= c < MONITOR_LIMIT => FillCell(ms, sx, sy, 2 * |ms|, r, c)))
  }

  predicate Populated(x: Cell)
  {
    x.monr > 0
  }

  /** A cell is populated exactly when it lies within the step counts and a
      monitor covers its corner; it then carries that monitor and the size
      of the cell, with every side at 255. */
  lemma FillCovers(ms: seq<MonitorInfo>, sx: seq<int>, sy: seq<int>, r: nat, c: nat)
    requires |sx| == MONITOR_LIMIT && |sy| == MONITOR_LIMIT && 2 * |ms| < MONITOR_LIMIT
    requires r < MONITOR_LIMIT && c < MONITOR_LIMIT
    ensures var x := Fill(ms, sx, sy)[r][c];
      Populated(x) <==> c < 2 * |ms| && r < 2 * |ms| && Owner(ms, sx[c], sy[r]).Some?
    ensures var x := Fill(ms, sx, sy)[r][c];
      Populated(x) ==>
        (x.index == Owner(ms, sx[c], sy[r]).value && x.index < |ms|
         && Covers(ms[x.index], sx[c], sy[r])
         && x.monx == sx[c + 1] - sx[c] && x.mony == sy[r + 1] - sy[r]
         && x.monl == SIDE && x.monr == SIDE && x.monu == SIDE && x.mond == SIDE)
    ensures var x := Fill(ms, sx, sy)[r][c];
      !Populated(x) ==> x == Blank
  {
  }

  // ---------------------------------------------------------------------
  // Neighbour marking

  /** Each cell's four sides are either all zero or all positive. */
  ghost predicate SidesAgree(g: seq<seq<Cell>>)
    requires Shaped(g)
  {
    forall r, c :: 0 <= r < MONITOR_LIMIT && 0 <= c < MONITOR_LIMIT ==>
      (g[r][c].monl > 0 <==> g[r][c].monr > 0) && (g[r][c].monu > 0 <==> g[r][c].monr > 0)
      && (g[r][c].mond > 0 <==> g[r][c].monr > 0)
  }

  /** The marking of one cell, read against the grid as it was before any
      marking: a side becomes 200 when the cell and its neighbour on that
      side both have that side set. */
  function MarkCell(g: seq<seq<Cell>>, r: nat, c: nat): Cell
    requires Shaped(g) && r < MONITOR_LIMIT && c < MONITOR_LIMIT
  {
    var x := g[r][c];
    x.(monl := if c > 0 && x.monr > 0 && g[r][c - 1].monl > 0 then WS else x.monl,
       monr := if c < MONITOR_LIMIT - 1 && x.monr > 0 && g[r][c + 1].monr > 0 then WS else x.monr,
       monu := if r > 0 && x.monu > 0 && g[r - 1][c].monu > 0 then WS else x.monu,
       mond := if r < MONITOR_LIMIT - 1 && x.mond > 0 && g[r + 1][c].mond > 0 then WS else x.mond)
  }

  function Marked(g: seq<seq<Cell>>): (m: seq<seq<Cell>>)
    requires Shaped(g)
    ensures Shaped(m)
  {
    seq(MONITOR_LIMIT, r requires 0 <= r < MONITOR_LIMIT =>
      seq(MONITOR_LIMIT, c requires 0 <= c < MONITOR_LIMIT => MarkCell(g, r, c)))
  }

  /** Marking never turns a positive side into zero or a zero one positive. */
  lemma MarkKeepsSigns(g: seq<seq<Cell>>, r: nat, c: nat)
    requires Shaped(g) && SidesAgree(g) && r < MONITOR_LIMIT && c < MONITOR_LIMIT
    ensures var x, y := MarkCell(g, r, c), g[r][c];
      (x.monl > 0 <==> y.monl > 0) && (x.monr > 0 <==> y.monr > 0)
      && (x.monu > 0 <==> y.monu > 0) && (x.mond > 0 <==> y.mond > 0)
  {
  }

  /** The body of the marking loop for cell (r, c), reading the grid `cur`
      as the loop has left it so far. */
  function Visit(cur: seq<seq<Cell>>, r: nat, c: nat): Cell
    requires Shaped(cur) && r < MONITOR_LIMIT && c < MONITOR_LIMIT
  {
    var x := cur[r][c];
    var x := if c > 0 && x.monr > 0 && cur[r][c - 1].monl > 0 then x.(monl := WS) else x;
    var x := if c < MONITOR_LIMIT - 1 && x.monr > 0 && cur[r][c + 1].monr > 0 then x.(monr := WS) else x;
    var x := if r > 0 && x.monu > 0 && cur[r - 1][c].monu > 0 then x.(monu := WS) else x;
    if r < MONITOR_LIMIT - 1 && x.mond > 0 && cur[r + 1][c].mond > 0 then x.(mond := WS) else x
  }

  /** The grid once the loop has visited every cell before (r, c) in
      row-major order, when each visit agrees with `MarkCell`. */
  ghost function Partial(g: seq<seq<Cell>>, r: nat, c: nat): (p: seq<seq<Cell>>)
    requires Shaped(g)
    ensures Shaped(p)
  {
    seq(MONITOR_LIMIT, i requires 0 <= i < MONITOR_LIMIT =>
      seq(MONITOR_LIMIT, j requires 0 <= j < MONITOR_LIMIT =>
        if i < r || (i == r && j < c) then MarkCell(g, i, j) else g[i][j]))
  }

  /** Visiting (r, c) in the partly marked grid gives the cell's marking:
      the neighbours already visited kept the sign of each side. */
  lemma VisitMarks(g: seq<seq<Cell>>, r: nat, c: nat)
    requires Shaped(g) && SidesAgree(g) && r < MONITOR_LIMIT && c < MONITOR_LIMIT
    ensures Visit(Partial(g, r, c), r, c) == MarkCell(g, r, c)
  {
    var p := Partial(g, r, c);
    assert p[r][c] == g[r][c];
    if c > 0 {
      assert p[r][c - 1].monl > 0 <==> g[r][c - 1].monl > 0 by {
        MarkKeepsSigns(g, r, c - 1);
        assert p[r][c - 1] == MarkCell(g, r, c - 1);
      }
    }
    if c < MONITOR_LIMIT - 1 {
      assert p[r][c + 1] == g[r][c + 1];
    }
    if r > 0 {
      assert p[r - 1][c].monu > 0 <==> g[r - 1][c].monu > 0 by {
        MarkKeepsSigns(g, r - 1, c);
        assert p[r - 1][c] == MarkCell(g, r - 1, c);
      }
    }
    if r < MONITOR_LIMIT - 1 {
      assert p[r + 1][c] == g[r + 1][c];
    }
  }

  lemma PartialStep(g: seq<seq<Cell>>, r: nat, c: nat)
    requires Shaped(g) && r < MONITOR_LIMIT && c < MONITOR_LIMIT
    ensures var p := Partial(g, r, c);
      p[r := p[r][c := MarkCell(g, r, c)]] == Partial(g, r, c + 1)
  {
    var p := Partial(g, r, c);
    var q := Partial(g, r, c + 1);
    var u := p[r := p[r][c := MarkCell(g, r, c)]];
    assert forall i :: 0 <= i < MONITOR_LIMIT ==> u[i] == q[i];
  }

  lemma PartialRow(g: seq<seq<Cell>>, r: nat)
    requires Shaped(g) && r < MONITOR_LIMIT
    ensures Partial(g, r, MONITOR_LIMIT) == Partial(g, r + 1, 0)
  {
    var p := Partial(g, r, MONITOR_LIMIT);
    var q := Partial(g, r + 1, 0);
    assert forall i :: 0 <= i < MONITOR_LIMIT ==> p[i] == q[i];
  }

  lemma PartialEnds(g: seq<seq<Cell>>)
    requires Shaped(g)
    ensures Partial(g, 0, 0) == g
    ensures Partial(g, MONITOR_LIMIT, 0) == Marked(g)
  {
    var p := Partial(g, 0, 0);
    assert forall i :: 0 <= i < MONITOR_LIMIT ==> p[i] == g[i];
    var q := Partial(g, MONITOR_LIMIT, 0);
    assert forall i :: 0 <= i < MONITOR_LIMIT ==> q[i] == Marked(g)[i];
  }

  /** The marking loop as written: row by row, cell by cell, each cell's
      sides are tested against neighbours of which those to the left and
      above have already been marked. On a grid whose sides agree this is
      the same as marking every cell against the unmarked grid. */
  method MarkNeighbours(g: seq<seq<Cell>>) returns (out: seq<seq<Cell>>)
    requires Shaped(g)
    ensures Shaped(out)
    ensures SidesAgree(g) ==> out == Marked(g)
  {
    PartialEnds(g);
    out := g;
    var r := 0;
    while r < MONITOR_LIMIT
      invariant 0 <= r <= MONITOR_LIMIT && Shaped(out)
      invariant SidesAgree(g) ==> out == Partial(g, r, 0)
    {
      var c := 0;
      while c < MONITOR_LIMIT
        invariant 0 <= c <= MONITOR_LIMIT && Shaped(out)
        invariant SidesAgree(g) ==> out == Partial(g, r, c)
      {
        var x := Visit(out, r, c);
        if SidesAgree(g) {
          VisitMarks(g, r, c);
          PartialStep(g, r, c);
        }
        out := out[r := out[r][c := x]];
        c := c + 1;
      }
      if SidesAgree(g) {
        PartialRow(g, r);
      }
      r := r + 1;
    }
  }

  /** A filled grid's sides agree. */
  lemma FillSidesAgree(ms: seq<MonitorInfo>, sx: seq<int>, sy: seq<int>)
    requires |sx| == MONITOR_LIMIT && |sy| == MONITOR_LIMIT && 2 * |ms| < MONITOR_LIMIT
    ensures SidesAgree(Fill(ms, sx, sy))
  {
    var g: seq<seq<Cell>> := Fill(ms, sx, sy);
    forall r: int, c: int | 0 <= r < MONITOR_LIMIT && 0 <= c < MONITOR_LIMIT
      ensures (g[r][c].monl > 0 <==> g[r][c].monr > 0) && (g[r][c].monu > 0 <==> g[r][c].monr > 0)
        && (g[r][c].mond > 0 <==> g[r][c].monr > 0)
    {
      FillCovers(ms, sx, sy, r, c);
    }
  }

  /** After fill and marking, a side reads 200 exactly when the cell and its
      neighbour on that side are both populated; any other side of a
      populated cell reads 255, and an unpopulated cell stays blank. */
  lemma MarkedSides(ms: seq<MonitorInfo>, sx: seq<int>, sy: seq<int>, r: nat, c: nat)
    requires |sx| == MONITOR_LIMIT && |sy| == MONITOR_LIMIT && 2 * |ms| < MONITOR_LIMIT
    requires r < MONITOR_LIMIT && c < MONITOR_LIMIT
    ensures var g := Fill(ms, sx, sy); var x := Marked(g)[r][c];
      (x.monl == WS <==> Populated(g[r][c]) && c > 0 && Populated(g[r][c - 1]))
      && (x.monr == WS <==> Populated(g[r][c]) && c < MONITOR_LIMIT - 1 && Populated(g[r][c + 1]))
      && (x.monu == WS <==> Populated(g[r][c]) && r > 0 && Populated(g[r - 1][c]))
      && (x.mond == WS <==> Populated(g[r][c]) && r < MONITOR_LIMIT - 1 && Populated(g[r + 1][c]))
    ensures var g := Fill(ms, sx, sy); var x := Marked(g)[r][c];
      Populated(g[r][c]) ==> x.monl in {WS, SIDE} && x.monr in {WS, SIDE} && x.monu in {WS, SIDE} && x.mond in {WS, SIDE}
    ensures var g := Fill(ms, sx, sy); var x := Marked(g)[r][c];
      !Populated(g[r][c]) ==> x == Blank
  {
    FillCovers(ms, sx, sy, r, c);
    if c > 0 {
      FillCovers(ms, sx, sy, r, c - 1);
    }
    if c < MONITOR_LIMIT - 1 {
      FillCovers(ms, sx, sy, r, c + 1);
    }
    if r > 0 {
      FillCovers(ms, sx, sy, r - 1, c);
    }
    if r < MONITOR_LIMIT - 1 {
      FillCovers(ms, sx, sy, r + 1, c);
    }
  }

  // ---------------------------------------------------------------------
  // Screen arrays and the whole routine

  /** `screen_w` / `screen_h`: band `k` runs from cut `k` to cut `k+1`. */
  function Bands(cuts: seq<int>, n: nat): (b: seq<Band>)
    requires |cuts| == MONITOR_LIMIT && n < MONITOR_LIMIT
    ensures |b| == MONITOR_LIMIT
    ensures forall k :: 0 <= k < n ==> b[k].start == cuts[k] && b[k].end == cuts[k + 1] && b[k].ord == k
    ensures forall k :: n <= k < MONITOR_LIMIT ==> b[k] == Band(0, 0, 0)
  {
    seq(MONITOR_LIMIT, k requires 0 <= k < MONITOR_LIMIT =>
      if k < n then Band(cuts[k], cuts[k + 1], k) else Band(0, 0, 0))
  }

  /** The layout together with the sorted step arrays it was cut from. */
  datatype Built = Built(layout: Layout, stepx: seq<int>, stepy: seq<int>, keptx: nat, kepty: nat)

  /** `gen_smart_touch_screens`; `reply` is what `XRRGetMonitors` returned.
      Eight or more monitors make the step arrays overrun, reported here as
      an error. */
  method Build(reply: Option<seq<MonitorInfo>>) returns (res: Result<Built>)
    ensures res.Ok? <==> 2 * MonitorCount(reply) < MONITOR_LIMIT
    ensures res.Ok? ==>
      var b := res.value; var l := b.layout; var ms := Counted(reply);
      l.count == MonitorCount(reply) && l.ws == WS
      && l.monitors == (if reply.Some? then reply.value else [])
      && l.totalW == Highest(Ends(ms, Horizontal)) && l.totalH == Highest(Ends(ms, Vertical))
      && CutsOf(b.stepx, b.keptx, ms, Horizontal, l.totalW)
      && CutsOf(b.stepy, b.kepty, ms, Vertical, l.totalH)
      && l.grid == Marked(Fill(ms, b.stepx, b.stepy))
      && l.screenW == Bands(b.stepx, 2 * |ms|) && l.screenH == Bands(b.stepy, 2 * |ms|)
  {
    var n := MonitorCount(reply);
    var ms := Counted(reply);
    if 2 * n >= MONITOR_LIMIT {
      return Err("step array overrun");
    }
    var xmax := Highest(Ends(ms, Horizontal));
    var ymax := Highest(Ends(ms, Vertical));
    var stepx, keptx := Cuts(ms, Horizontal, xmax);
    var stepy, kepty := Cuts(ms, Vertical, ymax);
    var filled := Fill(ms, stepx, stepy);
    FillSidesAgree(ms, stepx, stepy);
    var grid := MarkNeighbours(filled);
    var all := if reply.Some? then reply.value else [];
    var l := Layout(n, all, grid, Bands(stepx, 2 * n), Bands(stepy, 2 * n), xmax, ymax, WS);
    res := Ok(Built(l, stepx, stepy, keptx, kepty));
  }
}
