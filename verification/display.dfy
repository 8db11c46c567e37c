/**
 * The event-driven display (display.cpp): four one-pixel border rectangles
 * per monitor, a hit test of pointer motion against them that yields a
 * crossing message, and the inverse placement of the pointer when the
 * switch hands control back. The X server is replaced by its inputs (the
 * monitor list per X screen, the queued events with the pointer position
 * and button mask) and its output (the warp target).
 */
module Display {
  import opened Common
  import opened Types
  import opened Rect

  const BORDER_WIDTH: int := 1
  const BORDER_CLEARANCE: int := 8

  /** One entry of XRRGetMonitors. */
  datatype MonitorInfo = MonitorInfo(x: int, y: int, width: int, height: int)

  /** `monitor_t`; the constructor never assigns `id`, so it stays 0. */
  datatype Monitor = Monitor(id: int, x: int, y: int, w: int, h: int)

  datatype DisplayState = DisplayState(
    rects: seq<Rect>,
    monitors: seq<Monitor>,
    hidden: bool,
    width: int,
    height: int)

  // ---------------------------------------------------------------------
  // Construction

  /** The four zones of monitor `mi`, tagged with its index `i` within its
      X screen, in the order LEFT, TOP, RIGHT, BOTTOM. */
  function MonitorRects(mi: MonitorInfo, i: int): seq<Rect>
  {
    [ Rect(mi.x, mi.y, BORDER_WIDTH, mi.height, i, LEFT),
      Rect(mi.x, mi.y, mi.width, BORDER_WIDTH, i, TOP),
      Rect(mi.x + mi.width - BORDER_WIDTH, mi.y, BORDER_WIDTH, mi.height, i, RIGHT),
      Rect(mi.x, mi.y + mi.height - BORDER_WIDTH, mi.width, BORDER_WIDTH, i, BOTTOM) ]
  }

  function ToMonitor(mi: MonitorInfo): Monitor
  {
    Monitor(0, mi.x, mi.y, mi.width, mi.height)
  }

  /** The zones appended while walking the monitors of one X screen. */
  function ScreenRects(ms: seq<MonitorInfo>): (r: seq<Rect>)
    ensures |r| == 4 * |ms|
    ensures forall k :: 0 <= k < |ms| ==> r[4 * k .. 4 * k + 4] == MonitorRects(ms[k], k)
  {
    if |ms| == 0 then []
    else
      var prev := ScreenRects(ms[..|ms| - 1]);
      assert forall k :: 0 <= k < |ms| - 1 ==> ms[..|ms| - 1][k] == ms[k];
      prev + MonitorRects(ms[|ms| - 1], |ms| - 1)
  }

  /** All monitors of all X screens, in discovery order. */
  function Flatten(screens: seq<seq<MonitorInfo>>): (r: seq<MonitorInfo>)
  {
    if |screens| == 0 then [] else Flatten(screens[..|screens| - 1]) + screens[|screens| - 1]
  }

  /** The zones of all X screens, screen after screen. */
  function AllRects(screens: seq<seq<MonitorInfo>>): (r: seq<Rect>)
    ensures |r| == 4 * |Flatten(screens)|
  {
    if |screens| == 0 then []
    else AllRects(screens[..|screens| - 1]) + ScreenRects(screens[|screens| - 1])
  }

  const NoScreens: seq<seq<MonitorInfo>> := []
  const NoMonitors: seq<MonitorInfo> := []

  function SumWidths(ms: seq<MonitorInfo>): int
  {
    if |ms| == 0 then 0 else SumWidths(ms[..|ms| - 1]) + ms[|ms| - 1].width
  }

  function SumHeights(ms: seq<MonitorInfo>): int
  {
    if |ms| == 0 then 0 else SumHeights(ms[..|ms| - 1]) + ms[|ms| - 1].height
  }

  /** The state the constructor leaves behind (display.cpp:45-70). */
  function Construct(screens: seq<seq<MonitorInfo>>): (st: DisplayState)
    ensures |st.rects| == 4 * |st.monitors|
    ensures |st.monitors| == |Flatten(screens)|
    ensures forall j :: 0 <= j < |st.monitors| ==> st.monitors[j] == ToMonitor(Flatten(screens)[j])
    ensures !st.hidden
  {
    var flat := Flatten(screens);
    DisplayState(AllRects(screens), seq(|flat|, j requires 0 <= j < |flat| => ToMonitor(flat[j])),
                 false, SumWidths(flat), SumHeights(flat))
  }

  /** With a single X screen, the zones come in blocks of four per monitor,
      in monitor order, each tagged with the index of the monitor whose edge
      it lies on, so the tag of every zone names its own monitor. */
  lemma SingleScreenRects(ms: seq<MonitorInfo>)
    ensures var st := Construct([ms]);
      forall k :: 0 <= k < |ms| ==>
        && st.rects[4 * k .. 4 * k + 4] == MonitorRects(ms[k], k)
        && st.monitors[k] == ToMonitor(ms[k])
  {
    FlattenSingle(ms);
  }

  /** `width` and `height` add up every monitor's extent: two monitors side by
      side yield a height of twice the desktop's height. */
  lemma SizeIsSumNotBoundingBox()
    ensures var st := Construct([[MonitorInfo(0, 0, 1920, 1080), MonitorInfo(1920, 0, 1920, 1080)]]);
      st.width == 3840 && st.height == 2160
  {
    var ms := [MonitorInfo(0, 0, 1920, 1080), MonitorInfo(1920, 0, 1920, 1080)];
    FlattenSingle(ms);
    assert ms[..1][..0] == NoMonitors;
    assert ms[..2][..1] == ms[..1];
    assert SumWidths(ms[..1]) == 1920 && SumHeights(ms[..1]) == 1080;
    assert SumWidths(ms) == 3840 && SumHeights(ms) == 2160;
  }

  lemma FlattenSingle(ms: seq<MonitorInfo>)
    ensures Flatten([ms]) == ms
    ensures AllRects([ms]) == ScreenRects(ms)
  {
    assert [ms][..0] == NoScreens;
  }

  /** The display built from one X screen with one monitor. */
  lemma ConstructSingle(mi: MonitorInfo)
    ensures Construct([[mi]]) == Lone(mi)
  {
    FlattenSingle([mi]);
    assert [mi][..0] == NoMonitors;
    assert ScreenRects([mi]) == MonitorRects(mi, 0) by {
      assert ScreenRects([mi]) == ScreenRects(NoMonitors) + MonitorRects(mi, 0);
    }
    assert SumWidths([mi]) == mi.width;
    assert SumHeights([mi]) == mi.height;
    var ms := seq(1, j requires 0 <= j < 1 => ToMonitor([mi][j]));
    assert ms == [ToMonitor(mi)];
  }

  // ---------------------------------------------------------------------
  // Placement (set_mouse_pos)

  /** Where `set_mouse_pos` warps the pointer for message `mp` on monitor `m`,
      given the summed display height. */
  function PlacementTarget(m: Monitor, mp: MousePos, height: int): (int, int)
  {
    match Classify(mp.border)
    case EdgeOf(Top) => (m.x + CDiv(m.w * mp.pos, RESOLUTION), m.y + BORDER_CLEARANCE)
    case EdgeOf(Bottom) => (m.x + CDiv(m.w * mp.pos, RESOLUTION), m.y + m.h - BORDER_CLEARANCE)
    case EdgeOf(Left) => (m.x + BORDER_CLEARANCE, m.y + CDiv(m.h * mp.pos, RESOLUTION))
    case EdgeOf(Right) => (m.x + m.w - BORDER_CLEARANCE, m.y + CDiv(m.h * mp.pos, RESOLUTION))
    case Hidden => (m.x, m.y + height)
    case Centre => (m.x + CDiv(m.w, 2), m.y + CDiv(m.h, 2))
  }

  /** `display::set_mouse_pos`. The source indexes the monitor list without a
      bounds check; an out-of-range screen id is an error here. Every call
      clears the hidden flag and only HIDE sets it again; there is no
      suppression of repeated placements on the same monitor. */
  function SetMousePos(st: DisplayState, mp: MousePos): (r: Result<(DisplayState, (int, int))>)
    ensures r.Ok? <==> mp.screen < |st.monitors|
    ensures r.Ok? ==> (r.value.0.hidden <==> mp.border == HIDE)
    ensures r.Ok? ==> r.value.0 == st.(hidden := mp.border == HIDE)
    ensures r.Ok? && mp.border == HIDE ==> var m := st.monitors[mp.screen];
      r.value.1 == (m.x, m.y + st.height)
    ensures r.Ok? && mp.border > HIDE ==> var m := st.monitors[mp.screen];
      m.w >= 0 && m.h >= 0 ==> r.value.1 == (m.x + m.w / 2, m.y + m.h / 2)
    ensures r.Ok? && mp.border > HIDE ==> var m := st.monitors[mp.screen]; var (x, y) := r.value.1;
      m.w > 0 && m.h > 0 ==> m.x <= x < m.x + m.w && m.y <= y < m.y + m.h
    ensures r.Ok? && (mp.border == TOP || mp.border == BOTTOM) ==> var m := st.monitors[mp.screen];
      m.w >= 0 ==> r.value.1.0 == m.x + m.w * mp.pos / RESOLUTION
    ensures r.Ok? && (mp.border == LEFT || mp.border == RIGHT) ==> var m := st.monitors[mp.screen];
      m.h >= 0 ==> r.value.1.1 == m.y + m.h * mp.pos / RESOLUTION
    ensures r.Ok? ==> var m := st.monitors[mp.screen]; var (x, y) := r.value.1;
      && (mp.border == TOP ==> y == m.y + BORDER_CLEARANCE)
      && (mp.border == BOTTOM ==> y == m.y + m.h - BORDER_CLEARANCE)
      && (mp.border == LEFT ==> x == m.x + BORDER_CLEARANCE)
      && (mp.border == RIGHT ==> x == m.x + m.w - BORDER_CLEARANCE)
  {
    if mp.screen >= |st.monitors| then Err("monitor index out of range")
    else
      var target := PlacementTarget(st.monitors[mp.screen], mp, st.height);
      PlacementFormulas(st.monitors[mp.screen], mp, st.height);
      Ok((st.(hidden := mp.border == HIDE), target))
  }

  /** The targets of `set_mouse_pos`, border by border, in terms of the
      monitor's geometry. */
  lemma PlacementFormulas(m: Monitor, mp: MousePos, height: int)
    ensures mp.border == HIDE ==> PlacementTarget(m, mp, height) == (m.x, m.y + height)
    ensures mp.border > HIDE && m.w >= 0 && m.h >= 0 ==> PlacementTarget(m, mp, height) == (m.x + m.w / 2, m.y + m.h / 2)
    ensures mp.border > HIDE && m.w > 0 && m.h > 0 ==> var (x, y) := PlacementTarget(m, mp, height);
      m.x <= x < m.x + m.w && m.y <= y < m.y + m.h
    ensures (mp.border == TOP || mp.border == BOTTOM) && m.w >= 0 ==>
      PlacementTarget(m, mp, height).0 == m.x + m.w * mp.pos / RESOLUTION
    ensures (mp.border == LEFT || mp.border == RIGHT) && m.h >= 0 ==>
      PlacementTarget(m, mp, height).1 == m.y + m.h * mp.pos / RESOLUTION
    ensures var (x, y) := PlacementTarget(m, mp, height);
      && (mp.border == TOP ==> y == m.y + BORDER_CLEARANCE)
      && (mp.border == BOTTOM ==> y == m.y + m.h - BORDER_CLEARANCE)
      && (mp.border == LEFT ==> x == m.x + BORDER_CLEARANCE)
      && (mp.border == RIGHT ==> x == m.x + m.w - BORDER_CLEARANCE)
  {
    if m.w >= 0 {
      assert m.w * mp.pos >= 0;
    }
    if m.h >= 0 {
      assert m.h * mp.pos >= 0;
    }
  }

  /** An edge placement lands inside the monitor, eight pixels in from the
      edge it names and at the scaled position along it, and off the
      monitor's own zone for that edge. It can still land in a neighbouring
      zone of the same monitor (TopPlacementAtZeroHitsLeftZone). */
  lemma EdgePlacementClearsItsZone(mi: MonitorInfo, mp: MousePos)
    requires mi.width > BORDER_CLEARANCE && mi.height > BORDER_CLEARANCE
    requires mp.border < HIDE
    ensures var (x, y) := PlacementTarget(ToMonitor(mi), mp, 0);
      && mi.x <= x < mi.x + mi.width
      && mi.y <= y < mi.y + mi.height
      && !Inside(MonitorRects(mi, 0)[ZoneIndex(mp.border)], x, y)
    ensures var (x, y) := PlacementTarget(ToMonitor(mi), mp, 0);
      && (mp.border == TOP ==> y == mi.y + BORDER_CLEARANCE)
      && (mp.border == BOTTOM ==> y == mi.y + mi.height - BORDER_CLEARANCE)
      && (mp.border == LEFT ==> x == mi.x + BORDER_CLEARANCE)
      && (mp.border == RIGHT ==> x == mi.x + mi.width - BORDER_CLEARANCE)
    ensures var (x, y) := PlacementTarget(ToMonitor(mi), mp, 0);
      && (mp.border == TOP || mp.border == BOTTOM ==> x == mi.x + mi.width * mp.pos / RESOLUTION)
      && (mp.border == LEFT || mp.border == RIGHT ==> y == mi.y + mi.height * mp.pos / RESOLUTION)
  {
    var m := ToMonitor(mi);
    PlacementFormulas(m, mp, 0);
    ScaleAlong(mp.pos, m.w);
    ScaleAlong(mp.pos, m.h);
  }

  /** A TOP placement at fraction 0 lands on the monitor's left column,
      eight pixels down: inside the LEFT zone of the same monitor, so the next
      motion event there on a lone monitor is reported as a LEFT crossing. */
  lemma TopPlacementAtZeroHitsLeftZone(mi: MonitorInfo)
    requires mi.width > BORDER_CLEARANCE && mi.height > BORDER_CLEARANCE
    ensures var (x, y) := PlacementTarget(ToMonitor(mi), MousePos(0, TOP, 0), 0);
      && Inside(MonitorRects(mi, 0)[0], x, y)
      && HandleEvent(Lone(mi), XEvent(true, true, true, true, x, y, 0)).Report?
      && HandleEvent(Lone(mi), XEvent(true, true, true, true, x, y, 0)).mp.border == LEFT
  {
    var (x, y) := PlacementTarget(ToMonitor(mi), MousePos(0, TOP, 0), 0);
    assert (x, y) == (mi.x, mi.y + BORDER_CLEARANCE);
    assert FirstHit(MonitorRects(mi, 0), x, y) == Some(0);
  }

  /** Position of the zone for an edge code within MonitorRects. */
  function ZoneIndex(b: byte): (k: nat)
    requires b < HIDE
    ensures k < 4 && MonitorRects(MonitorInfo(0, 0, 0, 0), 0)[k].border == b
  {
    if b == LEFT then 0 else if b == TOP then 1 else if b == RIGHT then 2 else 3
  }

  // ---------------------------------------------------------------------
  // Motion events (handle_events)

  /** What the display learns about one queued X event. */
  datatype XEvent = XEvent(
    xiGeneric: bool,   // a generic event of the XInput extension
    dataOk: bool,      // XGetEventData succeeded
    motion: bool,      // the XI event type is XI_Motion
    queryOk: bool,     // XQueryPointer reported the default root window
    rootX: int,
    rootY: int,
    mask: nat)         // modifier and button state

  /** Button1Mask .. Button5Mask are bits 8..12 of the state mask. */
  predicate ButtonHeld(mask: nat)
  {
    (mask / 0x100) % 0x20 != 0
  }

  datatype EventOutcome = Skip | Report(mp: MousePos) | Fatal(cause: string)

  /** The first zone in list order containing the pointer. */
  function FirstHit(rects: seq<Rect>, px: int, py: int): (r: Option<nat>)
    ensures r.Some? ==> r.value < |rects| && Inside(rects[r.value], px, py)
    ensures r.Some? ==> forall k :: 0 <= k < r.value ==> !Inside(rects[k], px, py)
    ensures r.None? ==> forall k :: 0 <= k < |rects| ==> !Inside(rects[k], px, py)
  {
    if |rects| == 0 then None
    else if Inside(rects[0], px, py) then Some(0)
    else match FirstHit(rects[1..], px, py)
      case None => None
      case Some(k) => Some(k + 1)
  }

  /** The fraction `65536 * offset / extent`, truncated to `uint16_t`. A
      zero extent divides by zero and a zone with a non-edge border throws. */
  function Fraction(b: Rect, px: int, py: int): (r: Result<u16>)
    requires Inside(b, px, py)
    ensures r.Ok? <==> (b.border in {TOP, BOTTOM} && b.w != 0) || (b.border in {LEFT, RIGHT} && b.h != 0)
    ensures r.Ok? && b.border in {TOP, BOTTOM} ==> r.value == (RESOLUTION * (px - b.x) / b.w) % RESOLUTION
    ensures r.Ok? && b.border in {LEFT, RIGHT} ==> r.value == (RESOLUTION * (py - b.y) / b.h) % RESOLUTION
  {
    if b.border == TOP || b.border == BOTTOM then
      if b.w == 0 then Err("division by zero")
      else Ok(ToU16(CDiv(RESOLUTION * (px - b.x), b.w)))
    else if b.border == LEFT || b.border == RIGHT then
      if b.h == 0 then Err("division by zero")
      else Ok(ToU16(CDiv(RESOLUTION * (py - b.y), b.h)))
    else Err("invalid border")
  }

  /** One iteration of the `handle_events` loop. */
  function HandleEvent(st: DisplayState, ev: XEvent): (o: EventOutcome)
    ensures o.Report? ==> ev.xiGeneric && ev.dataOk && ev.motion && ev.queryOk
    ensures o.Report? ==> !st.hidden && !ButtonHeld(ev.mask)
    ensures o.Report? ==> exists k :: 0 <= k < |st.rects| && Inside(st.rects[k], ev.rootX, ev.rootY)
  {
    if !ev.xiGeneric || !ev.dataOk || !ev.motion || st.hidden || !ev.queryOk || ButtonHeld(ev.mask) then Skip
    else match FirstHit(st.rects, ev.rootX, ev.rootY)
      case None => Skip
      case Some(k) =>
        var b := st.rects[k];
        match Fraction(b, ev.rootX, ev.rootY)
        case Err(cause) => Fatal(cause)
        case Ok(pos) => Report(MousePos(ToByte(b.screen), b.border, pos))
  }

  /** `display::handle_events` over a batch of queued events: at most one
      report per event, in event order, until a fatal one. */
  function HandleEvents(st: DisplayState, evs: seq<XEvent>): (r: Result<seq<MousePos>>)
    ensures r.Ok? ==> |r.value| <= |evs|
    ensures st.hidden ==> r == Ok([])
  {
    if |evs| == 0 then Ok([])
    else match HandleEvent(st, evs[0])
      case Fatal(cause) => Err(cause)
      case Skip => HandleEvents(st, evs[1..])
      case Report(mp) =>
        match HandleEvents(st, evs[1..])
        case Err(cause) => Err(cause)
        case Ok(rest) => Ok([mp] + rest)
  }

  /** The zone that reports is the first in list order that contains the
      pointer, and the message carries its screen tag and border. */
  lemma ReportFromFirstZone(st: DisplayState, ev: XEvent)
    requires HandleEvent(st, ev).Report?
    ensures var k := FirstHit(st.rects, ev.rootX, ev.rootY).value;
      && HandleEvent(st, ev).mp.border == st.rects[k].border
      && HandleEvent(st, ev).mp.screen == st.rects[k].screen % 256
  {
  }

  /** A pointer motion the loop acts on: an XInput2 motion event whose data
      arrived, while the pointer is shown, the query answered and no button
      is held. */
  predicate Eligible(st: DisplayState, ev: XEvent)
  {
    ev.xiGeneric && ev.dataOk && ev.motion && !st.hidden && ev.queryOk && !ButtonHeld(ev.mask)
  }

  /** Every eligible motion inside a zone is reported, with the first zone's
      screen tag and border and the fraction along it; a zone whose fraction
      cannot be taken is fatal; anything else is skipped. */
  lemma EligibleMotionReports(st: DisplayState, ev: XEvent)
    ensures !Eligible(st, ev) || FirstHit(st.rects, ev.rootX, ev.rootY).None? <==> HandleEvent(st, ev) == Skip
    ensures Eligible(st, ev) && FirstHit(st.rects, ev.rootX, ev.rootY).Some? ==>
      var b := st.rects[FirstHit(st.rects, ev.rootX, ev.rootY).value];
      var f := Fraction(b, ev.rootX, ev.rootY);
      (f.Ok? ==> HandleEvent(st, ev) == Report(MousePos(ToByte(b.screen), b.border, f.value)))
      && (f.Err? ==> HandleEvent(st, ev) == Fatal(f.cause))
  {
  }

  /** The outcome of each event of a batch, taken on its own. */
  function Outcomes(st: DisplayState, evs: seq<XEvent>): (os: seq<EventOutcome>)
    ensures |os| == |evs| && forall i :: 0 <= i < |evs| ==> os[i] == HandleEvent(st, evs[i])
  {
    seq(|evs|, i requires 0 <= i < |evs| => HandleEvent(st, evs[i]))
  }

  /** The messages of the reporting outcomes, in order. */
  function Reports(os: seq<EventOutcome>): (mps: seq<MousePos>)
    ensures |mps| <= |os|
  {
    if |os| == 0 then []
    else (if os[0].Report? then [os[0].mp] else []) + Reports(os[1..])
  }

  /** Event `i` is fatal and no event before it is. */
  predicate FirstFatal(st: DisplayState, evs: seq<XEvent>, i: nat)
    requires i < |evs|
  {
    HandleEvent(st, evs[i]).Fatal? && forall j :: 0 <= j < i ==> !HandleEvent(st, evs[j]).Fatal?
  }

  /** A batch is the events taken one at a time: it succeeds exactly when no
      event is fatal, and then forwards the reports in event order; otherwise
      it fails with the first fatal event's cause. */
  lemma HandleEventsCharacterized(st: DisplayState, evs: seq<XEvent>)
    ensures HandleEvents(st, evs).Ok? <==> forall i :: 0 <= i < |evs| ==> !HandleEvent(st, evs[i]).Fatal?
    ensures HandleEvents(st, evs).Ok? ==> HandleEvents(st, evs).value == Reports(Outcomes(st, evs))
    ensures forall i :: 0 <= i < |evs| && FirstFatal(st, evs, i) ==>
      HandleEvents(st, evs) == Err(HandleEvent(st, evs[i]).cause)
  {
    BatchOkWithoutFatal(st, evs);
    BatchForwardsReports(st, evs);
    BatchFailsOnFirstFatal(st, evs);
  }

  lemma {:induction false} BatchOkWithoutFatal(st: DisplayState, evs: seq<XEvent>)
    ensures HandleEvents(st, evs).Ok? <==> forall i :: 0 <= i < |evs| ==> !HandleEvent(st, evs[i]).Fatal?
  {
    if |evs| > 0 {
      BatchOkWithoutFatal(st, evs[1..]);
      assert forall i :: 1 <= i < |evs| ==> evs[1..][i - 1] == evs[i];
    }
  }

  lemma {:induction false} BatchForwardsReports(st: DisplayState, evs: seq<XEvent>)
    ensures HandleEvents(st, evs).Ok? ==> HandleEvents(st, evs).value == Reports(Outcomes(st, evs))
  {
    if |evs| > 0 {
      BatchForwardsReports(st, evs[1..]);
      assert Outcomes(st, evs)[1..] == Outcomes(st, evs[1..]);
    }
  }

  lemma {:induction false} BatchFailsOnFirstFatal(st: DisplayState, evs: seq<XEvent>)
    ensures forall i :: 0 <= i < |evs| && FirstFatal(st, evs, i) ==>
      HandleEvents(st, evs) == Err(HandleEvent(st, evs[i]).cause)
  {
    if |evs| > 0 {
      BatchFailsOnFirstFatal(st, evs[1..]);
      forall i | 0 < i < |evs| && FirstFatal(st, evs, i)
        ensures HandleEvents(st, evs) == Err(HandleEvent(st, evs[i]).cause)
      {
        assert FirstFatal(st, evs[1..], i - 1) by {
          assert forall j :: 0 <= j < i ==> evs[1..][j] == evs[j + 1];
        }
      }
    }
  }

  /** At the far end of a zone, `65536 * extent / extent` is 65536, which does
      not fit `uint16_t` and wraps to 0: the far end reports like the near end. */
  lemma FarEndWrapsToZero(b: Rect)
    requires b.border == TOP && b.w > 0 && b.h >= 0
    ensures Fraction(b, b.x + b.w, b.y) == Ok(0)
  {
    MulDivCancel(RESOLUTION, b.w);
    assert RESOLUTION * (b.x + b.w - b.x) == RESOLUTION * b.w;
  }

  // ---------------------------------------------------------------------
  // Round trip

  /** Arithmetic core of the round trip: for 0 <= d < w <= 65536, placing at
      fraction floor(65536 * d / w) gives back d or d - 1. */
  lemma ScaleRoundTrip(d: int, w: int)
    requires 0 <= d < w <= RESOLUTION
    ensures var f := RESOLUTION * d / w;
      0 <= f < RESOLUTION && d - 1 <= w * f / RESOLUTION <= d
  {
    var f := RESOLUTION * d / w;
    var rem := RESOLUTION * d % w;
    assert RESOLUTION * d == w * f + rem && 0 <= rem < w;
    assert 0 <= f < RESOLUTION by {
      assert RESOLUTION * (w - d) > 0;
      assert w * f < w * RESOLUTION;
      MulLtCancel(w, f, RESOLUTION);
    }
    var g := w * f / RESOLUTION;
    var rem2 := w * f % RESOLUTION;
    assert w * f == RESOLUTION * g + rem2 && 0 <= rem2 < RESOLUTION;
    assert g <= d by {
      assert RESOLUTION * g < RESOLUTION * (d + 1);
      MulLtCancel(RESOLUTION, g, d + 1);
    }
    assert d - 1 <= g by {
      assert RESOLUTION * (d - 2) < RESOLUTION * g;
      MulLtCancel(RESOLUTION, d - 2, g);
    }
  }

  /** The display of a single X screen with a single monitor. */
  function Lone(mi: MonitorInfo): DisplayState
  {
    DisplayState(MonitorRects(mi, 0), [ToMonitor(mi)], false, mi.width, mi.height)
  }

  /** A pointer on the top edge of a lone monitor, clear of the left and
      right zones, is reported on TOP with fraction 65536 * d / width. */
  lemma TopEdgeReport(mi: MonitorInfo, d: int, ev: XEvent)
    requires 4 <= mi.width <= RESOLUTION && mi.height >= 2
    requires 2 <= d < mi.width - 1
    requires ev == XEvent(true, true, true, true, mi.x + d, mi.y, 0)
    ensures 0 <= RESOLUTION * d / mi.width < RESOLUTION
    ensures HandleEvent(Lone(mi), ev) == Report(MousePos(0, TOP, RESOLUTION * d / mi.width))
  {
    var rects := MonitorRects(mi, 0);
    assert !Inside(rects[0], ev.rootX, ev.rootY);
    assert Inside(rects[1], ev.rootX, ev.rootY);
    assert FirstHit(rects, ev.rootX, ev.rootY) == Some(1);
    ScaleRoundTrip(d, mi.width);
    assert RESOLUTION * (ev.rootX - mi.x) == RESOLUTION * d;
    assert Fraction(rects[1], ev.rootX, ev.rootY) == Ok(RESOLUTION * d / mi.width);
  }

  /** Because zones are closed, the LEFT and TOP zones of a monitor share its
      top-left corner; LEFT comes first in the list, so a pointer in that
      corner is reported on LEFT at fraction 0, never on TOP. */
  lemma TopLeftCornerReportsLeft(mi: MonitorInfo, ev: XEvent)
    requires mi.width >= 0 && mi.height >= 1
    requires ev == XEvent(true, true, true, true, mi.x, mi.y, 0)
    ensures Inside(MonitorRects(mi, 0)[0], ev.rootX, ev.rootY)
    ensures Inside(MonitorRects(mi, 0)[1], ev.rootX, ev.rootY)
    ensures HandleEvent(Lone(mi), ev) == Report(MousePos(0, LEFT, 0))
  {
    var rects := MonitorRects(mi, 0);
    assert FirstHit(rects, ev.rootX, ev.rootY) == Some(0);
    assert RESOLUTION * (ev.rootY - mi.y) == 0;
    assert Fraction(rects[0], ev.rootX, ev.rootY) == Ok(0);
  }

  /** Placing a TOP message on a lone monitor. */
  lemma TopPlacement(mi: MonitorInfo, f: u16)
    requires mi.width > 0
    ensures SetMousePos(Lone(mi), MousePos(0, TOP, f)).Ok?
    ensures SetMousePos(Lone(mi), MousePos(0, TOP, f)).value.1
         == (mi.x + mi.width * f / RESOLUTION, mi.y + BORDER_CLEARANCE)
  {
    assert mi.width * f >= 0;
  }

  /** End to end on a lone monitor: a pointer on the top edge (clear of the
      left and right zones) is reported on TOP, and placing the pointer back
      from that report lands within one pixel of where it was, eight pixels
      below the edge. */
  lemma TopEdgeRoundTrip(mi: MonitorInfo, d: int, ev: XEvent)
    requires 4 <= mi.width <= RESOLUTION && mi.height >= 2
    requires 2 <= d < mi.width - 1
    requires ev == XEvent(true, true, true, true, mi.x + d, mi.y, 0)
    ensures HandleEvent(Construct([[mi]]), ev).Report?
    ensures var mp := HandleEvent(Construct([[mi]]), ev).mp;
      && SetMousePos(Construct([[mi]]), mp).Ok?
      && var (x, y) := SetMousePos(Construct([[mi]]), mp).value.1;
         mi.x + d - 1 <= x <= mi.x + d && y == mi.y + BORDER_CLEARANCE
  {
    ConstructSingle(mi);
    TopEdgeReport(mi, d, ev);
    ScaleRoundTrip(d, mi.width);
    TopPlacement(mi, RESOLUTION * d / mi.width);
  }
}
