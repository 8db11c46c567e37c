/**
 * The per-tick logic of the polling generation (functions.c): the heartbeat
 * gate, border evaluation with its send-once flags, and the placement of
 * the pointer on a message from the switch.
 *
 * The X calls become inputs and outputs: `XQueryPointer` is the pointer
 * passed in, `XWarpPointer` is the relative move returned. USB transfers
 * are the registry functions of the polling USB layer, with the transfer
 * results passed in.
 */
module Functions {
  import opened Common
  import opened Types
  import opened Frame
  import Display
  import Screens
  import WeyipUsb
  import UsbHelper

  const WEYIP_RESOLUTION: int := 65536

  /** The pointer as `XQueryPointer` fills `ctx.xbe`. */
  datatype Pointer = Pointer(x: int, y: int, state: nat)

  /** `struct context` without the display connection and the microseconds
      that only feed the log. */
  datatype Ctx = Ctx(
    layout: Screens.Layout,
    configured: bool,
    dataSend: bool,
    dataRecv: bool,
    doNotSend: bool,
    lastRow: int,
    lastCol: int,
    nowSec: int,
    wasSec: int,
    xbe: Pointer)

  /** What `gen_smart_touch_screens` guarantees about the layout and what
      every evaluation keeps: a full grid, full band arrays whose row and
      column numbers index the grid, the counted monitors present, and the
      last row and column inside the grid. */
  ghost predicate ValidCtx(c: Ctx)
  {
    var l := c.layout;
    Screens.Shaped(l.grid)
    && |l.screenW| == Screens.MONITOR_LIMIT && |l.screenH| == Screens.MONITOR_LIMIT
    && (forall k :: 0 <= k < Screens.MONITOR_LIMIT ==> 0 <= l.screenW[k].ord < Screens.MONITOR_LIMIT)
    && (forall k :: 0 <= k < Screens.MONITOR_LIMIT ==> 0 <= l.screenH[k].ord < Screens.MONITOR_LIMIT)
    && l.count <= |l.monitors|
    && 0 <= c.lastRow < Screens.MONITOR_LIMIT && 0 <= c.lastCol < Screens.MONITOR_LIMIT
  }

  /** The layout the grid construction builds satisfies the invariant, for
      any last row and column inside the grid. */
  lemma BuiltLayoutValid(l: Screens.Layout, stepx: seq<int>, stepy: seq<int>, n: nat, c: Ctx)
    requires |stepx| == Screens.MONITOR_LIMIT && |stepy| == Screens.MONITOR_LIMIT && 2 * n < Screens.MONITOR_LIMIT
    requires Screens.Shaped(l.grid) && l.count <= |l.monitors|
    requires l.screenW == Screens.Bands(stepx, 2 * n) && l.screenH == Screens.Bands(stepy, 2 * n)
    requires c.layout == l && 0 <= c.lastRow < Screens.MONITOR_LIMIT && 0 <= c.lastCol < Screens.MONITOR_LIMIT
    ensures ValidCtx(c)
  {
  }

  // ---------------------------------------------------------------------
  // heartbeat

  /** `heartbeat`: once per new second, and only when configured, a done
      frame and then a heartbeat frame go to the switch. `retDone` and
      `retBeat` are the two transfers' results. Returns the registry
      afterwards, the handles closed and the frames written. */
  function Heartbeat(c: Ctx, reg: WeyipUsb.Registry, retDone: int, retBeat: int): (r: (WeyipUsb.Registry, seq<nat>, seq<seq<byte>>))
    requires WeyipUsb.Valid(reg)
    ensures !(c.nowSec != c.wasSec && c.configured) ==> r == (reg, [], [])
    ensures |r.2| <= 2
    ensures |r.2| == 2 ==> r.2 == [DoneFrame(), HeartbeatFrame()]
    ensures c.nowSec != c.wasSec && c.configured && WeyipUsb.HasFirstDevice(reg) && reg.slots[0].udev.Some?
      ==> r.2 == [DoneFrame(), HeartbeatFrame()]
    ensures r.0 == reg || r.0.index == 0
  {
    if c.nowSec != c.wasSec && c.configured then
      var done := WeyipUsb.SendPositioningDone(reg, retDone);
      var (reg', closed, beat) := WeyipUsb.SendHeartbeat(reg, retBeat);
      (reg', closed, Written(done) + Written(beat))
    else (reg, [], [])
  }

  /** The frame a send wrote, if any. */
  function Written(o: WeyipUsb.SendOutcome): (frames: seq<seq<byte>>)
    ensures |frames| <= 1 && (|frames| == 1 <==> o.written.Some?)
  {
    if o.written.Some? then [o.written.value.1] else []
  }

  // ---------------------------------------------------------------------
  // mouse_at_border_eval: where is the pointer?

  /** The first band, from `j` on, whose end lies beyond `v`; the search
      stops at the first band with a non-positive end. */
  function FindBand(bands: seq<Screens.Band>, v: int, j: nat): (r: Option<nat>)
    requires |bands| == Screens.MONITOR_LIMIT
    ensures r.Some? ==> j <= r.value < Screens.MONITOR_LIMIT && 0 < bands[r.value].end && v < bands[r.value].end
    ensures r.Some? ==> forall k :: j <= k < r.value ==> 0 < bands[k].end <= v
    ensures r.None? ==> forall k :: j <= k < Screens.MONITOR_LIMIT && v < bands[k].end ==>
      exists m :: j <= m <= k && bands[m].end <= 0
    decreases Screens.MONITOR_LIMIT - j
  {
    if j >= Screens.MONITOR_LIMIT || bands[j].end <= 0 then None
    else if v < bands[j].end then Some(j)
    else FindBand(bands, v, j + 1)
  }

  /** The cell the pointer is in and the bounds of its row and column band;
      all zero where no band was found. */
  datatype Where = Where(row: int, col: int, hstart: int, maxh: int, wstart: int, maxw: int)

  function Locate(l: Screens.Layout, x: int, y: int): (w: Where)
    requires |l.screenW| == Screens.MONITOR_LIMIT && |l.screenH| == Screens.MONITOR_LIMIT
    ensures FindBand(l.screenH, y, 0).None? ==> w == Where(0, 0, 0, 0, 0, 0)
    ensures FindBand(l.screenH, y, 0).Some? ==> w.row == l.screenH[FindBand(l.screenH, y, 0).value].ord
    ensures FindBand(l.screenH, y, 0).None? || FindBand(l.screenW, x, 0).None? ==> w.col == 0 && w.wstart == 0 && w.maxw == 0
    ensures FindBand(l.screenH, y, 0).Some? && FindBand(l.screenW, x, 0).Some? ==>
      w.col == l.screenW[FindBand(l.screenW, x, 0).value].ord
  {
    match FindBand(l.screenH, y, 0)
    case None => Where(0, 0, 0, 0, 0, 0)
    case Some(j) =>
      var h := l.screenH[j];
      match FindBand(l.screenW, x, 0)
      case None => Where(h.ord, 0, h.start, h.end, 0, 0)
      case Some(i) =>
        var b := l.screenW[i];
        Where(h.ord, b.ord, h.start, h.end, b.start, b.end)
  }

  /** `WEYIP_RESOLUTION * (v - start) / (end - start + 1)`, truncated as C
      does; a zero divisor is a crash. */
  function Scale(v: int, start: int, end: int): (r: Result<int>)
    ensures r.Err? <==> end - start + 1 == 0
    ensures r.Ok? && start <= v <= end ==> 0 <= r.value < WEYIP_RESOLUTION
  {
    if end - start + 1 == 0 then Err("division by zero")
    else
      var q := CDiv(WEYIP_RESOLUTION * (v - start), end - start + 1);
      if start <= v <= end then
        FractionBound(v - start, end - start + 1);
        Ok(q)
      else Ok(q)
  }

  /** A pointer inside its band scales into the 16-bit range. */
  lemma FractionBound(d: int, w: int)
    requires 0 <= d < w
    ensures 0 <= (WEYIP_RESOLUTION * d) / w < WEYIP_RESOLUTION
  {
    var q := (WEYIP_RESOLUTION * d) / w;
    assert w * q <= WEYIP_RESOLUTION * d < WEYIP_RESOLUTION * w;
    MulLtCancel(w, q, WEYIP_RESOLUTION);
  }

  /** A crossing found: `data` 1..4 for top, bottom, left, right. */
  datatype Hit = NoHit | Hit(data: int, monitor: int, position: int)

  /** Whether an inner crossing may fire: not right after a placement, and
      the last cell lies on the given side of the current one. */
  predicate InnerAllowed(c: Ctx, last: int, cur: int, before: bool)
  {
    !c.doNotSend && last != cur && (if before then last > cur else last < cur)
  }

  /** The eight tests of `mouse_at_border_eval`, in the order written. The
      outer tests fire on the cell's own outer side; the inner tests fire on
      a move from another monitor's cell. */
  function Classify(c: Ctx, w: Where, x: int, y: int): (r: Result<Hit>)
    requires ValidCtx(c)
    requires 0 <= w.row < Screens.MONITOR_LIMIT && 0 <= w.col < Screens.MONITOR_LIMIT
    ensures r.Ok? && r.value.Hit? ==> 1 <= r.value.data <= 4
    ensures r.Ok? && r.value.Hit? && c.doNotSend ==> r.value.monitor == c.layout.grid[w.row][w.col].index
    ensures r.Ok? && r.value.Hit? && r.value.data <= 2 && w.wstart <= x <= w.maxw ==> 0 <= r.value.position < WEYIP_RESOLUTION
    ensures r.Ok? && r.value.Hit? && r.value.data >= 3 && w.hstart <= y <= w.maxh ==> 0 <= r.value.position < WEYIP_RESOLUTION
    ensures r.Err? ==> w.maxw - w.wstart + 1 == 0 || w.maxh - w.hstart + 1 == 0
  {
    var g := c.layout.grid;
    var cell := g[w.row][w.col];
    var ws := c.layout.ws;
    var above := g[c.lastRow][w.col];
    var beside := g[w.row][c.lastCol];
    if y == w.hstart && cell.monu != ws && cell.monu > 0 then
      Along(1, cell.index, Scale(x, w.wstart, w.maxw))
    else if InnerAllowed(c, c.lastRow, w.row, true) && cell.index != above.index then
      Along(1, above.index, Scale(x, w.wstart, w.maxw))
    else if !(y == c.layout.totalH - 1 && x == 1) && y == w.hstart + cell.mony - 1 && cell.mond != ws
      && cell.mond > 0 && x != 0 then
      Along(2, cell.index, Scale(x, w.wstart, w.maxw))
    else if InnerAllowed(c, c.lastRow, w.row, false) && cell.index != above.index then
      Along(2, above.index, Scale(x, w.wstart, w.maxw))
    else if x == w.wstart && cell.monl != ws && cell.monl > 0 && y != c.layout.totalH - 1 then
      Along(3, cell.index, Scale(y, w.hstart, w.maxh))
    else if InnerAllowed(c, c.lastCol, w.col, true) && beside.index != cell.index then
      Along(3, beside.index, Scale(y, w.hstart, w.maxh))
    else if x == w.wstart + cell.monx - 1 && cell.monr != ws && cell.monr > 0 then
      Along(4, cell.index, Scale(y, w.hstart, w.maxh))
    else if InnerAllowed(c, c.lastCol, w.col, false) && beside.index != cell.index then
      Along(4, beside.index, Scale(y, w.hstart, w.maxh))
    else Ok(NoHit)
  }

  function Along(data: int, monitor: int, position: Result<int>): (r: Result<Hit>)
    ensures position.Err? <==> r.Err?
    ensures position.Ok? ==> r == Ok(Hit(data, monitor, position.value))
  {
    match position
    case Err(cause) => Err(cause)
    case Ok(p) => Ok(Hit(data, monitor, p))
  }

  /** What an evaluation leaves: the context, the message handed to
      `send_mouse_position` if one was, and the frame written. */
  datatype Evaluation = Evaluation(ctx: Ctx, sent: Option<MousePos>, written: Option<(int, seq<byte>)>)

  /** `mouse_at_border_eval`; `p` is what `XQueryPointer` reports and `ret`
      the result of the crossing transfer. */
  function MouseAtBorderEval(c: Ctx, p: Pointer, reg: WeyipUsb.Registry, ret: int): (r: Result<Evaluation>)
    requires ValidCtx(c)
    ensures r.Ok? ==> ValidCtx(r.value.ctx) && r.value.ctx.xbe == p
    ensures r.Ok? ==> r.value.ctx.layout == c.layout && r.value.ctx.configured == c.configured
    ensures !c.configured || Display.ButtonHeld(p.state) ==> r == Ok(Evaluation(c.(xbe := p), None, None))
    ensures r.Ok? && c.configured && !Display.ButtonHeld(p.state) ==>
      var w := Locate(c.layout, p.x, p.y);
      r.value.ctx.lastRow == w.row && r.value.ctx.lastCol == w.col && !r.value.ctx.doNotSend
    ensures r.Ok? && c.dataSend ==> r.value.sent.None?
    ensures r.Ok? && r.value.sent.Some? ==> r.value.sent.value.border <= 3
    ensures r.Ok? && r.value.sent.Some? ==>
      r.value.ctx.dataSend == (WeyipUsb.SendMousePosition(reg, r.value.sent.value.screen, r.value.sent.value.border, r.value.sent.value.pos, ret).status == 0)
    ensures r.Ok? && r.value.ctx.dataSend ==> c.dataSend || r.value.sent.Some?
    ensures r.Ok? && r.value.written.Some? ==> r.value.sent.Some? && r.value.written.value.1 == CrossingFrame(r.value.sent.value)
  {
    var c := c.(xbe := p);
    if !c.configured || Display.ButtonHeld(p.state) then Ok(Evaluation(c, None, None))
    else
      var w := Locate(c.layout, p.x, p.y);
      match Classify(c, w, p.x, p.y)
      case Err(cause) => Err(cause)
      case Ok(hit) =>
        var c := if hit.NoHit? then c.(dataSend := false) else c;
        var c := c.(lastRow := w.row, lastCol := w.col, doNotSend := false);
        if hit.Hit? && !c.dataSend then
          var mp := MousePos(ToByte(hit.monitor), hit.data - 1, ToU16(hit.position));
          var o := WeyipUsb.SendMousePosition(reg, mp.screen, mp.border, mp.pos, ret);
          var c := if o.status == 0 then c.(dataSend := true, dataRecv := false) else c;
          Ok(Evaluation(c, Some(mp), o.written))
        else Ok(Evaluation(c, None, None))
  }

  // ---------------------------------------------------------------------
  // set_mouse_on_message

  /** Where a placement puts the pointer: along the edge at the fraction,
      2 px inside a bottom or right edge, on the edge for top and left; HIDE
      goes below and left of the desktop, anything else to its centre. */
  function Target(l: Screens.Layout, screen: byte, border: byte, pos: u16): (t: (int, int))
    requires screen < |l.monitors|
  {
    var m := l.monitors[screen];
    if border == TOP then (m.x + CDiv(pos * m.width, WEYIP_RESOLUTION), m.y)
    else if border == BOTTOM then (m.x + CDiv(pos * m.width, WEYIP_RESOLUTION), m.y + m.height - 2)
    else if border == LEFT then (m.x, m.y + CDiv(pos * m.height, WEYIP_RESOLUTION))
    else if border == RIGHT then (m.x + m.width - 2, m.y + CDiv(pos * m.height, WEYIP_RESOLUTION))
    else if border == HIDE then (1 - 300, l.totalH - 1 + 300)
    else (CDiv(l.totalW, 2), CDiv(l.totalH, 2))
  }

  /** What a call of `set_mouse_on_message` did: the context and registry
      afterwards, the handles closed, the relative warp, and the done frame
      written. */
  datatype Placement = Placement(
    ctx: Ctx,
    reg: WeyipUsb.Registry,
    closed: seq<nat>,
    warp: Option<(int, int)>,
    written: Option<(int, seq<byte>)>)

  /** `set_mouse_on_message`; `answer` gives the read transfers, `after` is
      what `XQueryPointer` reports once the pointer moved, and `retDone` is
      the result of the done transfer. */
  function SetMouseOnMessage(c: Ctx, reg: WeyipUsb.Registry, answer: (nat, nat) -> UsbHelper.Transfer,
                             after: Pointer, retDone: int): (r: Placement)
    requires ValidCtx(c) && WeyipUsb.Valid(reg)
    ensures ValidCtx(r.ctx) && WeyipUsb.Valid(r.reg)
    ensures c.dataRecv ==> r == Placement(c, reg, [], None, None)
    ensures r.warp.None? ==> r.ctx == c && r.written.None?
    ensures r.warp.Some? ==> !c.dataRecv && r.ctx.doNotSend && r.ctx.dataRecv && r.ctx.xbe == after
    ensures r.warp.Some? ==> r.ctx.layout == c.layout && r.ctx.lastRow == c.lastRow && r.ctx.lastCol == c.lastCol
    ensures r.warp.Some? ==>
      r.ctx.dataSend == (WeyipUsb.SendPositioningDone(r.reg, retDone).status == 0)
    ensures r.written.Some? ==> r.warp.Some? && r.written.value.1 == DoneFrame()
  {
    if c.dataRecv then Placement(c, reg, [], None, None)
    else
      var o := WeyipUsb.ReadMousePosition(reg, answer, WeyipUsb.OutPointers(true, true, true));
      if o.status == 0 && o.screen.value < c.layout.count then
        var (tx, ty) := Target(c.layout, o.screen.value, o.border.value, o.pos.value);
        var warp := (tx - c.xbe.x, ty - c.xbe.y);
        var done := WeyipUsb.SendPositioningDone(o.reg, retDone);
        var c' := c.(doNotSend := true, xbe := after, dataSend := done.status == 0, dataRecv := true);
        Placement(c', o.reg, o.closed, Some(warp), done.written)
      else Placement(c, o.reg, o.closed, None, None)
  }

  // ---------------------------------------------------------------------
  // Properties

  /** The relative warp moves the pointer from where it was last seen onto
      the placement target. */
  lemma WarpReachesTarget(c: Ctx, reg: WeyipUsb.Registry, answer: (nat, nat) -> UsbHelper.Transfer, after: Pointer, retDone: int)
    requires ValidCtx(c) && WeyipUsb.Valid(reg)
    requires SetMouseOnMessage(c, reg, answer, after, retDone).warp.Some?
    ensures var o := WeyipUsb.ReadMousePosition(reg, answer, WeyipUsb.OutPointers(true, true, true));
      var (dx, dy) := SetMouseOnMessage(c, reg, answer, after, retDone).warp.value;
      o.accepted.Some? && o.accepted.value.screen < c.layout.count
      && (c.xbe.x + dx, c.xbe.y + dy) == Target(c.layout, o.accepted.value.screen, o.accepted.value.border, o.accepted.value.pos)
  {
  }

  /** A placement on an edge lands on the monitor named, for monitors at
      least 2 px in each direction: along the edge at the fraction of its
      length, across it on the top or left line or 2 px inside the bottom or
      right one. */
  lemma EdgeTargetOnMonitor(l: Screens.Layout, screen: byte, border: byte, pos: u16)
    requires screen < |l.monitors| && border <= RIGHT
    requires l.monitors[screen].width >= 2 && l.monitors[screen].height >= 2
    ensures var m := l.monitors[screen]; var (tx, ty) := Target(l, screen, border, pos);
      m.x <= tx < m.x + m.width && m.y <= ty < m.y + m.height
    ensures var m := l.monitors[screen]; var (tx, ty) := Target(l, screen, border, pos);
      (border == TOP ==> ty == m.y) && (border == BOTTOM ==> ty == m.y + m.height - 2)
      && (border == LEFT ==> tx == m.x) && (border == RIGHT ==> tx == m.x + m.width - 2)
  {
    var m := l.monitors[screen];
    ScaleAlong(pos, m.width);
    ScaleAlong(pos, m.height);
  }

  /** HIDE parks the pointer left of and below any desktop whose height is
      not negative. */
  lemma HideLeavesDesktop(l: Screens.Layout, screen: byte, pos: u16)
    requires screen < |l.monitors| && l.totalH >= 0
    ensures var (tx, ty) := Target(l, screen, HIDE, pos);
      tx < 0 && ty >= l.totalH
  {
  }

  /** Any border above HIDE targets the middle of the desktop. */
  lemma OtherBordersCentre(l: Screens.Layout, screen: byte, border: byte, pos: u16)
    requires screen < |l.monitors| && border > HIDE && l.totalW > 0 && l.totalH > 0
    ensures var (tx, ty) := Target(l, screen, border, pos);
      0 <= tx < l.totalW && 0 <= ty < l.totalH && tx == l.totalW / 2 && ty == l.totalH / 2
  {
  }

  /** Right after a placement, an evaluation reports only a crossing of the
      pointer's own cell: the inner tests are off until it has run once. */
  lemma PlacementSuppressesInnerCrossing(c: Ctx, reg: WeyipUsb.Registry, answer: (nat, nat) -> UsbHelper.Transfer,
                                         after: Pointer, retDone: int, p: Pointer, ret: int)
    requires ValidCtx(c) && WeyipUsb.Valid(reg)
    requires SetMouseOnMessage(c, reg, answer, after, retDone).warp.Some?
    ensures var c' := SetMouseOnMessage(c, reg, answer, after, retDone).ctx;
      var w := Locate(c'.layout, p.x, p.y);
      0 <= w.row < Screens.MONITOR_LIMIT && 0 <= w.col < Screens.MONITOR_LIMIT
      && (Classify(c', w, p.x, p.y).Ok? && Classify(c', w, p.x, p.y).value.Hit? ==>
          Classify(c', w, p.x, p.y).value.monitor == c'.layout.grid[w.row][w.col].index)
  {
    var c' := SetMouseOnMessage(c, reg, answer, after, retDone).ctx;
    LocateInGrid(c', p.x, p.y);
  }

  /** The row and column found always index the grid. */
  lemma LocateInGrid(c: Ctx, x: int, y: int)
    requires ValidCtx(c)
    ensures var w := Locate(c.layout, x, y);
      0 <= w.row < Screens.MONITOR_LIMIT && 0 <= w.col < Screens.MONITOR_LIMIT
  {
  }

  /** Send-once: after a crossing went out, later evaluations send nothing
      until one finds no crossing (which clears the flag) or a placement
      reports a failed done frame. */
  lemma SendOnce(c: Ctx, p: Pointer, reg: WeyipUsb.Registry, ret: int, q: Pointer, ret2: int)
    requires ValidCtx(c)
    requires MouseAtBorderEval(c, p, reg, ret).Ok?
    requires MouseAtBorderEval(c, p, reg, ret).value.sent.Some? && ret == 0
    requires WeyipUsb.HasFirstDevice(reg) && reg.slots[0].udev.Some?
    ensures var c' := MouseAtBorderEval(c, p, reg, ret).value.ctx;
      c'.dataSend && !c'.dataRecv
      && (MouseAtBorderEval(c', q, reg, ret2).Ok? ==> MouseAtBorderEval(c', q, reg, ret2).value.sent.None?)
  {
    var e := MouseAtBorderEval(c, p, reg, ret).value;
    var mp := e.sent.value;
    assert WeyipUsb.SendMousePosition(reg, mp.screen, mp.border, mp.pos, ret).status == 0;
  }

  /** An evaluation that finds no crossing clears the send-once flag. */
  lemma NoCrossingClearsFlag(c: Ctx, p: Pointer, reg: WeyipUsb.Registry, ret: int)
    requires ValidCtx(c) && c.configured && !Display.ButtonHeld(p.state)
    requires var w := Locate(c.layout, p.x, p.y);
      0 <= w.row < Screens.MONITOR_LIMIT && 0 <= w.col < Screens.MONITOR_LIMIT
      && Classify(c.(xbe := p), w, p.x, p.y) == Ok(NoHit)
    ensures MouseAtBorderEval(c, p, reg, ret).Ok?
    ensures !MouseAtBorderEval(c, p, reg, ret).value.ctx.dataSend
    ensures MouseAtBorderEval(c, p, reg, ret).value.sent.None?
  {
  }

  /** A crossing that the tests find is handed to `send_mouse_position`
      unless one is already outstanding: border `data - 1`, the monitor
      found and the scaled position. A failing test (a zero divisor) fails
      the evaluation, and only then. */
  lemma CrossingIsSent(c: Ctx, p: Pointer, reg: WeyipUsb.Registry, ret: int)
    requires ValidCtx(c) && c.configured && !Display.ButtonHeld(p.state) && !c.dataSend
    ensures var w := Locate(c.layout, p.x, p.y);
      0 <= w.row < Screens.MONITOR_LIMIT && 0 <= w.col < Screens.MONITOR_LIMIT
      && (Classify(c.(xbe := p), w, p.x, p.y).Err? <==> MouseAtBorderEval(c, p, reg, ret).Err?)
    ensures var w := Locate(c.layout, p.x, p.y);
      var h := Classify(c.(xbe := p), w, p.x, p.y);
      h.Ok? && h.value.Hit? ==>
        MouseAtBorderEval(c, p, reg, ret).Ok?
        && MouseAtBorderEval(c, p, reg, ret).value.sent
           == Some(MousePos(ToByte(h.value.monitor), h.value.data - 1, ToU16(h.value.position)))
  {
    LocateInGrid(c.(xbe := p), p.x, p.y);
  }

  /** The outer top test: on the first line of a cell whose upper side is
      the desktop's edge, the crossing is TOP (data 1) on the cell's own
      monitor at `65536 * (x - start) / width` of the column band. */
  lemma OuterTopEdgeHit(c: Ctx, w: Where, x: int)
    requires ValidCtx(c)
    requires 0 <= w.row < Screens.MONITOR_LIMIT && 0 <= w.col < Screens.MONITOR_LIMIT
    requires var cell := c.layout.grid[w.row][w.col];
      cell.monu != c.layout.ws && cell.monu > 0
    requires w.maxw - w.wstart + 1 != 0
    ensures Classify(c, w, x, w.hstart)
      == Ok(Hit(1, c.layout.grid[w.row][w.col].index, CDiv(WEYIP_RESOLUTION * (x - w.wstart), w.maxw - w.wstart + 1)))
  {
  }

  /** The outer left test, reached when neither vertical test fires: on the
      first column of a cell whose left side is the desktop's edge, off the
      desktop's last line, the crossing is LEFT (data 3) on the cell's own
      monitor at `65536 * (y - start) / height` of the row band. */
  lemma OuterLeftEdgeHit(c: Ctx, w: Where, y: int)
    requires ValidCtx(c)
    requires 0 <= w.row < Screens.MONITOR_LIMIT && 0 <= w.col < Screens.MONITOR_LIMIT
    requires var cell := c.layout.grid[w.row][w.col];
      cell.monl != c.layout.ws && cell.monl > 0 && y != c.layout.totalH - 1
    requires y != w.hstart && y != w.hstart + c.layout.grid[w.row][w.col].mony - 1
    requires c.doNotSend || c.lastRow == w.row
    requires w.maxh - w.hstart + 1 != 0
    ensures Classify(c, w, w.wstart, y)
      == Ok(Hit(3, c.layout.grid[w.row][w.col].index, CDiv(WEYIP_RESOLUTION * (y - w.hstart), w.maxh - w.hstart + 1)))
  {
  }

  /** The outer bottom test, reached when neither top test fires: on the
      last line of a cell whose lower side is the desktop's edge, except at
      x = 0 and at (1, total_h - 1), the crossing is BOTTOM (data 2). */
  lemma OuterBottomEdgeHit(c: Ctx, w: Where, x: int)
    requires ValidCtx(c)
    requires 0 <= w.row < Screens.MONITOR_LIMIT && 0 <= w.col < Screens.MONITOR_LIMIT
    requires var cell := c.layout.grid[w.row][w.col];
      cell.mond != c.layout.ws && cell.mond > 0 && cell.mony != 1
    requires x != 0 && !(w.hstart + c.layout.grid[w.row][w.col].mony - 1 == c.layout.totalH - 1 && x == 1)
    requires c.doNotSend || c.lastRow <= w.row
    requires w.maxw - w.wstart + 1 != 0
    ensures Classify(c, w, x, w.hstart + c.layout.grid[w.row][w.col].mony - 1)
      == Ok(Hit(2, c.layout.grid[w.row][w.col].index, CDiv(WEYIP_RESOLUTION * (x - w.wstart), w.maxw - w.wstart + 1)))
  {
  }

  /** The outer right test, reached when no earlier test fires: on the last
      column of a cell whose right side is the desktop's edge, the crossing
      is RIGHT (data 4). */
  lemma OuterRightEdgeHit(c: Ctx, w: Where, y: int)
    requires ValidCtx(c)
    requires 0 <= w.row < Screens.MONITOR_LIMIT && 0 <= w.col < Screens.MONITOR_LIMIT
    requires var cell := c.layout.grid[w.row][w.col];
      cell.monr != c.layout.ws && cell.monr > 0 && cell.monx != 1
    requires y != w.hstart && y != w.hstart + c.layout.grid[w.row][w.col].mony - 1
    requires c.doNotSend || (c.lastRow == w.row && c.lastCol <= w.col)
    requires w.maxh - w.hstart + 1 != 0
    ensures Classify(c, w, w.wstart + c.layout.grid[w.row][w.col].monx - 1, y)
      == Ok(Hit(4, c.layout.grid[w.row][w.col].index, CDiv(WEYIP_RESOLUTION * (y - w.hstart), w.maxh - w.hstart + 1)))
  {
  }

  /** An inner top crossing: moving up from a cell of another monitor in the
      same column, the crossing is TOP on the monitor left behind. */
  lemma InnerTopHit(c: Ctx, w: Where, x: int, y: int)
    requires ValidCtx(c)
    requires 0 <= w.row < Screens.MONITOR_LIMIT && 0 <= w.col < Screens.MONITOR_LIMIT
    requires var cell := c.layout.grid[w.row][w.col];
      !(y == w.hstart && cell.monu != c.layout.ws && cell.monu > 0)
    requires !c.doNotSend && c.lastRow > w.row
    requires c.layout.grid[c.lastRow][w.col].index != c.layout.grid[w.row][w.col].index
    requires w.maxw - w.wstart + 1 != 0
    ensures Classify(c, w, x, y)
      == Ok(Hit(1, c.layout.grid[c.lastRow][w.col].index, CDiv(WEYIP_RESOLUTION * (x - w.wstart), w.maxw - w.wstart + 1)))
  {
  }

  /** An accepted placement for a counted monitor warps the pointer from
      where it was last seen onto the placement target and answers with a
      done frame. */
  lemma AcceptedPlacementWarps(c: Ctx, reg: WeyipUsb.Registry, answer: (nat, nat) -> UsbHelper.Transfer,
                               after: Pointer, retDone: int)
    requires ValidCtx(c) && WeyipUsb.Valid(reg) && !c.dataRecv
    requires var o := WeyipUsb.ReadMousePosition(reg, answer, WeyipUsb.OutPointers(true, true, true));
      o.status == 0 && o.screen.Some? && o.screen.value < c.layout.count
    ensures var o := WeyipUsb.ReadMousePosition(reg, answer, WeyipUsb.OutPointers(true, true, true));
      var r := SetMouseOnMessage(c, reg, answer, after, retDone);
      o.border.Some? && o.pos.Some?
      && var t := Target(c.layout, o.screen.value, o.border.value, o.pos.value);
      r.warp == Some((t.0 - c.xbe.x, t.1 - c.xbe.y))
      && r.ctx.doNotSend && r.ctx.dataRecv && r.ctx.xbe == after
      && r.written == WeyipUsb.SendPositioningDone(o.reg, retDone).written
  {
  }
}
