/**
 * The daemon object of the event-driven generation (lmss.cpp): it owns the
 * event loop, the USB transport and the display, wires placements from the
 * switch to the display and crossings from the display to the switch, and
 * sends a heartbeat every second. The event loop is reduced to its handler
 * table (event_loop.cpp): registration fails for a bad or duplicate
 * descriptor, and a wake-up on an unknown descriptor is fatal.
 */
module Lmss {
  import opened Common
  import opened Types
  import opened Frame
  import Usb
  import Display

  /** The three callbacks the daemon registers. */
  datatype Handler = UsbPoll | DisplayEvents | HeartbeatTimer

  datatype EventLoop = EventLoop(handlers: map<int, Handler>)

  /** `event_loop::add_fd`: `epoll_ctl(EPOLL_CTL_ADD)` refuses an invalid
      descriptor and one already registered. */
  function AddFd(el: EventLoop, fd: int, h: Handler): (r: Result<EventLoop>)
    ensures r.Ok? <==> fd >= 0 && fd !in el.handlers
    ensures r.Ok? ==> r.value.handlers == el.handlers[fd := h]
  {
    if fd < 0 || fd in el.handlers then Err("epoll_ctl failed")
    else Ok(EventLoop(el.handlers[fd := h]))
  }

  /** What the operating system answers while the daemon is built. */
  datatype DisplaySetup =
    | DisplayFailed(cause: string)                               // no display, no XInput 2.0, ...
    | DisplayReady(screens: seq<seq<Display.MonitorInfo>>, xfd: int)

  datatype Environment = Environment(
    epollFd: int,
    nodes: seq<Usb.NodeProbe>,
    claimOk: bool,
    usbTimerFd: int,
    usbTimerArmed: bool,
    display: DisplaySetup,
    timerFd: int,
    timerArmed: bool)

  datatype Daemon = Daemon(el: EventLoop, usb: Usb.UsbState, dsp: Display.DisplayState, timerFd: int)

  /** Something the daemon does to the outside world. */
  datatype Output =
    | UsbWrite(frame: seq<byte>)
    | UsbSubmit(id: nat)
    | Warp(x: int, y: int)

  /** The transport's writes and submissions as daemon outputs; placements
      are not outputs of the transport (they go to the display). */
  function UsbOutputs(effs: seq<Usb.Effect>): (r: seq<Output>)
    ensures |r| <= |effs|
    ensures (forall i :: 0 <= i < |effs| ==> !effs[i].Place?) ==>
      && |r| == |effs|
      && forall i :: 0 <= i < |effs| ==>
           (effs[i].Write? ==> r[i] == UsbWrite(effs[i].frame)) && (effs[i].Submit? ==> r[i] == UsbSubmit(effs[i].id))
  {
    if |effs| == 0 then []
    else match effs[0]
      case Write(f) => [UsbWrite(f)] + UsbOutputs(effs[1..])
      case Submit(id) => [UsbSubmit(id)] + UsbOutputs(effs[1..])
      case Place(_) => UsbOutputs(effs[1..])
  }

  /** The constructor `lmss::lmss`: members are built in declaration order
      (event loop, USB transport, display, heartbeat timer) and any failure
      ends construction. */
  function Construct(env: Environment): (r: Result<(Daemon, seq<Output>)>)
    ensures r.Ok? ==> env.epollFd >= 0 && Usb.SelectNode(env.nodes).Ok? && env.claimOk && env.usbTimerArmed
    ensures r.Ok? ==> env.display.DisplayReady? && env.timerFd >= 0 && env.timerArmed
    ensures r.Ok? ==>
      r.value.0.el.handlers == map[env.usbTimerFd := UsbPoll, env.display.xfd := DisplayEvents, env.timerFd := HeartbeatTimer]
    ensures r.Ok? ==> |r.value.0.el.handlers| == 3
    ensures r.Ok? ==> r.value.0.usb == Usb.UsbState(None, [0], 1) && !r.value.0.dsp.hidden
    ensures r.Ok? ==> r.value.1 == [UsbWrite(HeartbeatFrame()), UsbSubmit(0)]
  {
    if env.epollFd < 0 then Err("failed to create epoll fd")
    else
      var el0 := EventLoop(map[]);
      // usb_dev: the heartbeat is written before the poll timer is registered,
      // the first read is armed after it.
      match Usb.Construct(env.nodes, env.claimOk, env.usbTimerArmed)
      case Err(c) => Err(c)
      case Ok((usb, effs)) =>
        match AddFd(el0, env.usbTimerFd, UsbPoll)
        case Err(c) => Err(c)
        case Ok(el1) =>
          match env.display
          case DisplayFailed(c) => Err(c)
          case DisplayReady(screens, xfd) =>
            match AddFd(el1, xfd, DisplayEvents)
            case Err(c) => Err(c)
            case Ok(el2) =>
              if env.timerFd < 0 then Err("invalid timer fd")
              else if !env.timerArmed then Err("failed to arm timer")
              else match AddFd(el2, env.timerFd, HeartbeatTimer)
                case Err(c) => Err(c)
                case Ok(el3) =>
                  assert el3.handlers.Keys == {env.usbTimerFd, xfd, env.timerFd};
                  Ok((Daemon(el3, usb, Display.Construct(screens), env.timerFd),
                      [UsbWrite(HeartbeatFrame()), UsbSubmit(0)]))
  }

  /** The answer of the non-blocking read of the heartbeat timer. */
  datatype TimerRead = Expired | WouldBlock | ReadError(errno: int)

  /** What the operating system holds for the daemon at one wake-up. */
  datatype Wakeup = Wakeup(
    reaps: seq<Usb.ReapResult>,     // answers of the reap calls, for the USB poll
    xevents: seq<Display.XEvent>,   // queued X events, for the display
    timer: TimerRead)               // answer of the heartbeat timer read

  /** `context::set_mouse_pos` for every placement of a USB batch, in order,
      interleaved with the transport's own writes and submissions. */
  function RouteUsbEffects(dsp: Display.DisplayState, effs: seq<Usb.Effect>): (r: Result<(Display.DisplayState, seq<Output>)>)
    ensures (forall i :: 0 <= i < |effs| ==> !effs[i].Place?) ==> r == Ok((dsp, UsbOutputs(effs)))
    decreases |effs|
  {
    if |effs| == 0 then Ok((dsp, []))
    else
      var step: Result<(Display.DisplayState, seq<Output>)> :=
        match effs[0]
        case Write(f) => Ok((dsp, [UsbWrite(f)]))
        case Submit(id) => Ok((dsp, [UsbSubmit(id)]))
        case Place(mp) =>
          match Display.SetMousePos(dsp, mp)
          case Err(c) => Err(c)
          case Ok((d1, (x, y))) => Ok((d1, [Warp(x, y)]));
      match step
      case Err(c) => Err(c)
      case Ok((d1, out1)) =>
        match RouteUsbEffects(d1, effs[1..])
        case Err(c) => Err(c)
        case Ok((d2, out2)) => Ok((d2, out1 + out2))
  }

  /** `context::mouse_at_border` for every report of a display batch, in
      order. */
  function SendReports(usb: Usb.UsbState, mps: seq<MousePos>): (r: (Usb.UsbState, seq<Output>))
    ensures |mps| == 0 ==> r == (usb, [])
    ensures |r.1| <= 2 * |mps|
    ensures r.0.transfers == usb.transfers && r.0.lastId == usb.lastId
    decreases |mps|
  {
    if |mps| == 0 then (usb, [])
    else
      var (u1, effs) := Usb.SendMousePos(usb, mps[0]);
      var (u2, out) := SendReports(u1, mps[1..]);
      (u2, UsbOutputs(effs) + out)
  }

  /** The reports that differ in screen or border from the report before
      them; the first is compared with `last`. */
  function Changes(last: Option<MousePos>, mps: seq<MousePos>): (cs: seq<MousePos>)
    ensures |cs| <= |mps|
    ensures forall m :: m in cs ==> m in mps
    decreases |mps|
  {
    if |mps| == 0 then []
    else (if Usb.Duplicate(last, mps[0]) then [] else [mps[0]]) + Changes(Some(mps[0]), mps[1..])
  }

  /** A crossing frame and a done frame for each message, in order. */
  function CrossingFrames(cs: seq<MousePos>): (out: seq<Output>)
    ensures |out| == 2 * |cs|
  {
    if |cs| == 0 then []
    else [UsbWrite(CrossingFrame(cs[0])), UsbWrite(DoneFrame())] + CrossingFrames(cs[1..])
  }

  /** A batch of reports reaches the switch as the crossing and done frames
      of exactly the reports that change screen or border from the one
      before, the first measured against the message last sent; afterwards
      the message last sent carries the screen and border of the batch's
      last report. */
  lemma {:induction false} SendReportsForwardsChanges(usb: Usb.UsbState, mps: seq<MousePos>)
    ensures SendReports(usb, mps).1 == CrossingFrames(Changes(usb.lastSent, mps))
    ensures |mps| > 0 ==> var l := SendReports(usb, mps).0.lastSent;
      l.Some? && l.value.screen == mps[|mps| - 1].screen && l.value.border == mps[|mps| - 1].border
    decreases |mps|
  {
    if |mps| > 0 {
      var (u1, effs) := Usb.SendMousePos(usb, mps[0]);
      var tail := mps[1..];
      SendReportsForwardsChanges(u1, tail);
      var head := if Usb.Duplicate(usb.lastSent, mps[0]) then [] else [mps[0]];
      SendOneForwards(usb, mps[0]);
      ChangesSeeOnlyTags(u1.lastSent, mps[0], tail);
      CrossingFramesAppend(head, Changes(Some(mps[0]), tail));
    }
  }

  /** One report's frames: none for a repeat, else its crossing and done. */
  lemma SendOneForwards(usb: Usb.UsbState, mp: MousePos)
    ensures UsbOutputs(Usb.SendMousePos(usb, mp).1)
      == CrossingFrames(if Usb.Duplicate(usb.lastSent, mp) then [] else [mp])
    ensures var l := Usb.SendMousePos(usb, mp).0.lastSent;
      l.Some? && l.value.screen == mp.screen && l.value.border == mp.border
  {
    if !Usb.Duplicate(usb.lastSent, mp) {
      var effs := [Usb.Write(CrossingFrame(mp)), Usb.Write(DoneFrame())];
      assert effs[1..][1..] == [];
      assert UsbOutputs(effs) == [UsbWrite(CrossingFrame(mp)), UsbWrite(DoneFrame())];
    }
  }

  /** Only the screen and border of the message compared with matter. */
  lemma ChangesSeeOnlyTags(last: Option<MousePos>, mp: MousePos, mps: seq<MousePos>)
    requires last.Some? && last.value.screen == mp.screen && last.value.border == mp.border
    ensures Changes(last, mps) == Changes(Some(mp), mps)
  {
    if |mps| > 0 {
      assert Usb.Duplicate(last, mps[0]) == Usb.Duplicate(Some(mp), mps[0]);
    }
  }

  lemma {:induction false} CrossingFramesAppend(a: seq<MousePos>, b: seq<MousePos>)
    ensures CrossingFrames(a + b) == CrossingFrames(a) + CrossingFrames(b)
    decreases |a|
  {
    if |a| == 0 {
      assert a + b == b;
    } else {
      assert (a + b)[1..] == a[1..] + b;
      CrossingFramesAppend(a[1..], b);
    }
  }

  /** `lmss::heartbeat`: a failed timer read other than EAGAIN is fatal;
      otherwise exactly one heartbeat frame is written. */
  function HeartbeatTick(t: TimerRead): (r: Result<seq<Output>>)
    ensures r.Ok? <==> !t.ReadError?
    ensures r.Ok? ==> r.value == [UsbWrite(HeartbeatFrame())]
  {
    if t.ReadError? then Err("failed to read timer")
    else Ok(UsbOutputs(Usb.Heartbeat()))
  }

  predicate WakeupWellFormed(w: Wakeup)
  {
    Usb.ReapsWellFormed(w.reaps)
  }

  /** One ready descriptor of `event_loop::run`: the handler registered for
      it runs; an unregistered descriptor is a logic error. */
  function Dispatch(d: Daemon, fd: int, w: Wakeup): (r: Result<(Daemon, seq<Output>)>)
    requires WakeupWellFormed(w)
    ensures fd !in d.el.handlers ==> r.Err?
    ensures r.Ok? ==> r.value.0.el == d.el && r.value.0.timerFd == d.timerFd
    ensures fd in d.el.handlers && d.el.handlers[fd] == HeartbeatTimer ==>
      r == (match HeartbeatTick(w.timer) case Ok(out) => Ok((d, out)) case Err(c) => Err(c))
    ensures r.Ok? && fd in d.el.handlers && d.el.handlers[fd] == DisplayEvents ==> r.value.0.dsp == d.dsp
    ensures r.Ok? && fd in d.el.handlers && d.el.handlers[fd] != UsbPoll ==>
      r.value.0.usb.transfers == d.usb.transfers
  {
    if fd !in d.el.handlers then Err("epoll returned unknown fd")
    else match d.el.handlers[fd]
      case HeartbeatTimer =>
        (match HeartbeatTick(w.timer) case Ok(out) => Ok((d, out)) case Err(c) => Err(c))
      case DisplayEvents =>
        (match Display.HandleEvents(d.dsp, w.xevents)
         case Err(c) => Err(c)
         case Ok(mps) =>
           var (u1, out) := SendReports(d.usb, mps);
           Ok((d.(usb := u1), out)))
      case UsbPoll =>
        (match Usb.HandleEvents(d.usb, w.reaps)
         case Err(c) => Err(c)
         case Ok((u1, effs)) =>
           match RouteUsbEffects(d.dsp, effs)
           case Err(c) => Err(c)
           case Ok((d1, out)) => Ok((d.(usb := u1, dsp := d1), out)))
  }

  // ---------------------------------------------------------------------
  // Properties

  /** The three registrations succeed exactly when the descriptors are valid
      and pairwise distinct. */
  lemma RegistrationNeedsDistinctFds(env: Environment)
    requires env.epollFd >= 0 && Usb.SelectNode(env.nodes).Ok? && env.claimOk && env.usbTimerArmed
    requires env.display.DisplayReady? && env.timerArmed
    ensures Construct(env).Ok? <==>
      && env.usbTimerFd >= 0 && env.display.xfd >= 0 && env.timerFd >= 0
      && env.usbTimerFd != env.display.xfd && env.usbTimerFd != env.timerFd && env.display.xfd != env.timerFd
  {
    assert Usb.Construct(env.nodes, env.claimOk, env.usbTimerArmed).Ok?;
    if env.usbTimerFd >= 0 && env.display.xfd >= 0 && env.timerFd >= 0
      && env.usbTimerFd != env.display.xfd && env.usbTimerFd != env.timerFd && env.display.xfd != env.timerFd {
      DistinctFdsRegister(env);
    }
  }

  /** Valid, pairwise distinct descriptors register one after another. */
  lemma DistinctFdsRegister(env: Environment)
    requires env.epollFd >= 0 && Usb.Construct(env.nodes, env.claimOk, env.usbTimerArmed).Ok?
    requires env.display.DisplayReady? && env.timerArmed
    requires env.usbTimerFd >= 0 && env.display.xfd >= 0 && env.timerFd >= 0
    requires env.usbTimerFd != env.display.xfd && env.usbTimerFd != env.timerFd && env.display.xfd != env.timerFd
    ensures Construct(env).Ok?
  {
    var el1 := AddFd(EventLoop(map[]), env.usbTimerFd, UsbPoll);
    assert el1.Ok?;
    var el2 := AddFd(el1.value, env.display.xfd, DisplayEvents);
    assert el2.Ok?;
    assert AddFd(el2.value, env.timerFd, HeartbeatTimer).Ok?;
  }

  /** A crossing the display reports reaches the switch as one crossing frame
      and one done frame; the same crossing reported again is dropped. */
  lemma CrossingForwarded(d: Daemon, fd: int, w: Wakeup, mp: MousePos)
    requires WakeupWellFormed(w)
    requires fd in d.el.handlers && d.el.handlers[fd] == DisplayEvents
    requires d.usb.lastSent.None?
    requires Display.HandleEvents(d.dsp, w.xevents) == Ok([mp, mp])
    ensures Dispatch(d, fd, w).Ok?
    ensures Dispatch(d, fd, w).value.1 == [UsbWrite(CrossingFrame(mp)), UsbWrite(DoneFrame())]
  {
    var (u1, e1) := Usb.SendMousePos(d.usb, mp);
    Usb.DedupIdempotent(d.usb, mp, mp);
    assert [mp, mp][1..] == [mp];
    assert [mp][1..] == [];
    var (u2, out2) := SendReports(u1, [mp]);
    assert out2 == [];
  }

  /** A placement frame from the switch, reaped as the only read in flight,
      moves the pointer to the display's target for it, acknowledges it with
      a done frame and arms the next read. */
  lemma PlacementReachesDisplay(d: Daemon, fd: int, w: Wakeup, mp: MousePos)
    requires fd in d.el.handlers && d.el.handlers[fd] == UsbPoll
    requires |d.usb.transfers| == 1 && Usb.IdsFresh(d.usb)
    requires w.reaps == [Usb.Completed(d.usb.transfers[0], 0, Usb.READ_ENDPOINT, PlaceFrame(mp)), Usb.WouldBlock]
    requires mp.screen < |d.dsp.monitors|
    ensures WakeupWellFormed(w) && Dispatch(d, fd, w).Ok?
    ensures var target := Display.PlacementTarget(d.dsp.monitors[mp.screen], mp, d.dsp.height);
      Dispatch(d, fd, w).value.1 == [Warp(target.0, target.1), UsbWrite(DoneFrame()), UsbSubmit(d.usb.lastId)]
    ensures Dispatch(d, fd, w).value.0.dsp.hidden <==> mp.border == HIDE
    ensures Dispatch(d, fd, w).value.0.usb.lastSent.None?
  {
    PlaceRoundTrip(mp);
    Usb.CompletionIsReplaced(d.usb, PlaceFrame(mp));
    var r := Usb.HandleEvents(d.usb, w.reaps);
    UsbPollEffects(d.usb, mp);
    var effs := r.value.1;
    assert effs == [Usb.Place(mp), Usb.Write(DoneFrame()), Usb.Submit(d.usb.lastId)];
    var target := Display.PlacementTarget(d.dsp.monitors[mp.screen], mp, d.dsp.height);
    var d1 := d.dsp.(hidden := mp.border == HIDE);
    assert Display.SetMousePos(d.dsp, mp) == Ok((d1, target));
    assert effs[1..] == [Usb.Write(DoneFrame()), Usb.Submit(d.usb.lastId)];
    assert RouteUsbEffects(d1, effs[1..]) == Ok((d1, [UsbWrite(DoneFrame()), UsbSubmit(d.usb.lastId)])) by {
      assert UsbOutputs(effs[1..]) == [UsbWrite(DoneFrame()), UsbSubmit(d.usb.lastId)];
    }
  }

  /** The USB batch of `PlacementReachesDisplay`: placement, done frame, and
      the re-armed read. */
  lemma UsbPollEffects(u: Usb.UsbState, mp: MousePos)
    requires |u.transfers| == 1 && Usb.IdsFresh(u)
    ensures var rs := [Usb.Completed(u.transfers[0], 0, Usb.READ_ENDPOINT, PlaceFrame(mp)), Usb.WouldBlock];
      && Usb.HandleEvents(u, rs).Ok?
      && Usb.HandleEvents(u, rs).value.1 == [Usb.Place(mp), Usb.Write(DoneFrame()), Usb.Submit(u.lastId)]
      && Usb.HandleEvents(u, rs).value.0.lastSent.None?
  {
    PlaceRoundTrip(mp);
    var rs := [Usb.Completed(u.transfers[0], 0, Usb.READ_ENDPOINT, PlaceFrame(mp)), Usb.WouldBlock];
    assert Usb.RemoveId(u.transfers, u.transfers[0]) == [] by {
      assert u.transfers == [u.transfers[0]];
    }
    var r0 := Usb.Reap(u, rs[0]);
    assert r0.Ok? && r0.value.1 && r0.value.0.transfers == [];
    assert r0.value.2 == [Usb.Place(mp), Usb.Write(DoneFrame())];
    assert rs[1..] == [Usb.WouldBlock];
    assert Usb.Drain(r0.value.0, rs[1..]) == Ok((r0.value.0, [])) by {
      assert Usb.Reap(r0.value.0, Usb.WouldBlock) == Ok((r0.value.0, false, []));
    }
    assert r0.value.2 + [] == r0.value.2;
    var dr := Usb.Drain(u, rs);
    assert dr == Ok((r0.value.0, r0.value.2));
  }
}
