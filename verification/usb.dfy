/**
 * The event-driven USB transport (usb.cpp): selecting the switch among the
 * device nodes, the outbound crossing report with its deduplication, and
 * the bookkeeping of asynchronous inbound reads (arm, reap, re-arm). The
 * kernel is replaced by its answers: the descriptor read from each node
 * and the outcome of each non-blocking reap.
 */
module Usb {
  import opened Common
  import opened Types
  import opened Frame

  const WEY_VENDOR: int := 0x1b07
  const WEY_PRODUCT_MIN: int := 0x1000
  const WEY_PRODUCT_MAX: int := 0x10ff

  /** The interrupt IN endpoint the inbound reads are submitted on (0x03 | USB_DIR_IN). */
  const READ_ENDPOINT: int := 0x83

  /** What reading the 18-byte device descriptor (section 9.6.1 of the USB 2.0
      specification) from one device node gave. */
  datatype NodeProbe =
    | OpenFailed                       // the node could not be opened: skipped
    | SeekFailed                       // lseek to the descriptor failed: fatal
    | ReadFailed                       // the read itself failed: fatal
    | ShortRead                        // fewer bytes than a descriptor: fatal
    | Descriptor(idVendor: int, idProduct: int)

  /** The switch: vendor 0x1b07, product in 0x1000..0x10ff. */
  predicate IsSwitch(vendor: int, product: int)
  {
    vendor == WEY_VENDOR && WEY_PRODUCT_MIN <= product <= WEY_PRODUCT_MAX
  }

  predicate Matches(p: NodeProbe)
  {
    p.Descriptor? && IsSwitch(p.idVendor, p.idProduct)
  }

  /** A node the scan passes over: it could not be opened, or it is some
      other device. */
  predicate Skipped(p: NodeProbe)
  {
    p.OpenFailed? || (p.Descriptor? && !Matches(p))
  }

  /** Every node before position `k` is passed over. */
  predicate SkippedBefore(nodes: seq<NodeProbe>, k: nat)
    requires k <= |nodes|
  {
    forall j :: 0 <= j < k ==> Skipped(nodes[j])
  }

  /** A probe that ends the scan with an exception. */
  predicate Fatal(p: NodeProbe)
  {
    p.SeekFailed? || p.ReadFailed? || p.ShortRead?
  }

  /** The message of the exception a fatal probe throws. */
  function FatalCause(p: NodeProbe): string
    requires Fatal(p)
  {
    match p
    case SeekFailed => "failed to seek to usb dev descriptor"
    case ReadFailed => "failed to read usb dev descriptor"
    case ShortRead => "usb dev descriptor read incomplete"
  }

  /** The directory scan of the constructor: the index of the node that is
      opened, or the error that ends construction. */
  function SelectNode(nodes: seq<NodeProbe>): (r: Result<nat>)
    ensures r.Ok? ==> r.value < |nodes| && Matches(nodes[r.value])
    ensures r.Ok? ==> forall k :: 0 <= k < r.value ==> nodes[k].OpenFailed? || nodes[k].Descriptor?
    ensures r.Ok? ==> forall k :: 0 <= k < r.value ==> !Matches(nodes[k])
    ensures (forall k :: 0 <= k < |nodes| ==> Skipped(nodes[k])) ==> r.Err?
    ensures forall k :: 0 <= k < |nodes| && SkippedBefore(nodes, k) && Matches(nodes[k]) ==> r == Ok(k)
    ensures forall k :: 0 <= k < |nodes| && SkippedBefore(nodes, k) && Fatal(nodes[k]) ==> r == Err(FatalCause(nodes[k]))
  {
    if |nodes| == 0 then Err("wey usb device not found")
    else if Fatal(nodes[0]) then Err(FatalCause(nodes[0]))
    else if Matches(nodes[0]) then Ok(0)
    else Shift(SelectNode(nodes[1..]))
  }

  function Shift(r: Result<nat>): Result<nat>
  {
    match r
    case Ok(k) => Ok(k + 1)
    case Err(c) => Err(c)
  }

  /** Something the transport does to the outside world. */
  datatype Effect =
    | Write(frame: seq<byte>)          // a synchronous bulk write to endpoint 3
    | Submit(id: nat)                  // an interrupt read armed on READ_ENDPOINT
    | Place(mp: MousePos)              // a placement handed to the orchestrator

  /** `usb_dev`'s fields: the message last sent, the ids of the reads in
      flight (in arming order) and the next id. */
  datatype UsbState = UsbState(lastSent: Option<MousePos>, transfers: seq<nat>, lastId: nat)

  /** Ids of armed reads are strictly increasing and all below `lastId`. */
  ghost predicate IdsFresh(s: UsbState)
  {
    && Increasing(s.transfers)
    && (forall i :: 0 <= i < |s.transfers| ==> s.transfers[i] < s.lastId)
  }

  ghost predicate Increasing(ts: seq<nat>)
  {
    forall i, j :: 0 <= i < j < |ts| ==> ts[i] < ts[j]
  }

  /** `read_mouse_pos`: arm one read with the next id. */
  function ArmRead(s: UsbState): (r: (UsbState, seq<Effect>))
    ensures r.0.transfers == s.transfers + [s.lastId]
    ensures r.0.lastId == s.lastId + 1
    ensures r.0.lastSent == s.lastSent
    ensures IdsFresh(s) ==> IdsFresh(r.0)
  {
    (s.(transfers := s.transfers + [s.lastId], lastId := s.lastId + 1), [Submit(s.lastId)])
  }

  /** A message repeats the last one sent when screen and border match; the
      fraction is not compared. */
  predicate Duplicate(last: Option<MousePos>, mp: MousePos)
  {
    last.Some? && last.value.screen == mp.screen && last.value.border == mp.border
  }

  /** `usb_dev::send_mouse_pos`: a duplicate is dropped; anything else becomes
      the last message sent and goes out as a crossing frame followed by a
      done frame. */
  function SendMousePos(s: UsbState, mp: MousePos): (r: (UsbState, seq<Effect>))
    ensures Duplicate(s.lastSent, mp) ==> r == (s, [])
    ensures !Duplicate(s.lastSent, mp) ==> r.0 == s.(lastSent := Some(mp))
    ensures !Duplicate(s.lastSent, mp) ==> r.1 == [Write(CrossingFrame(mp)), Write(DoneFrame())]
  {
    if Duplicate(s.lastSent, mp) then (s, [])
    else (s.(lastSent := Some(mp)), [Write(CrossingFrame(mp)), Write(DoneFrame())])
  }

  /** The answer of one USBDEVFS_REAPURBNDELAY call. */
  datatype ReapResult =
    | WouldBlock                                   // errno EAGAIN: nothing completed
    | ReapError(errno: int)                        // any other errno: fatal
    | Completed(id: nat, status: int, endpoint: int, buf: seq<byte>)

  /** Removes every transfer with the given id, keeping the order of the rest. */
  function RemoveId(ts: seq<nat>, id: nat): (r: seq<nat>)
    ensures forall x :: x in r <==> x in ts && x != id
    ensures |r| <= |ts|
    ensures id in ts ==> |r| < |ts|
    ensures Increasing(ts) ==> Increasing(r)
  {
    if |ts| == 0 then []
    else
      var rest := RemoveId(ts[1..], id);
      assert forall x :: x in ts[1..] ==> x in ts;
      if ts[0] == id then rest else
        var r := [ts[0]] + rest;
        assert Increasing(ts) ==> Increasing(r) by {
          if Increasing(ts) {
            assert forall k :: 0 <= k < |rest| ==> ts[0] < rest[k] by {
              forall k | 0 <= k < |rest|
                ensures ts[0] < rest[k]
              {
                assert rest[k] in ts[1..];
              }
            }
          }
        }
        r
  }

  /** `usb_dev::reap`: one completed transfer, or the end of the drain. A
      completed read carrying a placement resets the dedup state, forwards the
      message and answers with a done frame. */
  function Reap(s: UsbState, rr: ReapResult): (r: Result<(UsbState, bool, seq<Effect>)>)
    requires rr.Completed? ==> |rr.buf| == FRAME_SIZE
    ensures rr.WouldBlock? ==> r == Ok((s, false, []))
    ensures rr.ReapError? ==> r.Err?
    ensures rr.Completed? ==> (r.Ok? <==> rr.status == 0)
    ensures r.Ok? && rr.Completed? ==> r.value.1 && r.value.0.transfers == RemoveId(s.transfers, rr.id)
    ensures r.Ok? && rr.Completed? && rr.endpoint == READ_ENDPOINT && DecodePlacement(rr.buf).Some? ==>
            && r.value.0.lastSent.None?
            && r.value.2 == [Place(DecodePlacement(rr.buf).value), Write(DoneFrame())]
    ensures r.Ok? && rr.Completed? && (rr.endpoint != READ_ENDPOINT || DecodePlacement(rr.buf).None?) ==>
            r.value.0.lastSent == s.lastSent && r.value.2 == []
    ensures r.Ok? ==> r.value.0.lastId == s.lastId
    ensures r.Ok? && IdsFresh(s) ==> IdsFresh(r.value.0)
  {
    match rr
    case WouldBlock => Ok((s, false, []))
    case ReapError(e) => Err("usbdevfs reap failed")
    case Completed(id, status, ep, buf) =>
      if status != 0 then Err("unhandled urb status")
      else
        var (s1, effs) :=
          if ep == READ_ENDPOINT then
            match DecodePlacement(buf)
            case Some(mp) => (s.(lastSent := None), [Place(mp), Write(DoneFrame())])
            case None => (s, [])
          else (s, []);
        var ts := RemoveId(s.transfers, id);
        assert forall i :: 0 <= i < |ts| ==> ts[i] in s.transfers;
        Ok((s1.(transfers := ts), true, effs))
  }

  predicate ReapsWellFormed(rs: seq<ReapResult>)
  {
    forall i :: 0 <= i < |rs| ==> rs[i].Completed? ==> |rs[i].buf| == FRAME_SIZE
  }

  /** The `while (reap()) {}` drain: reaps in order until one answers that
      nothing more completed (a kernel answering past the end of `rs` would
      say EAGAIN). */
  function Drain(s: UsbState, rs: seq<ReapResult>): (r: Result<(UsbState, seq<Effect>)>)
    requires ReapsWellFormed(rs)
    ensures r.Ok? ==> |r.value.0.transfers| <= |s.transfers|
    ensures r.Ok? ==> r.value.0.lastId == s.lastId
    ensures r.Ok? && IdsFresh(s) ==> IdsFresh(r.value.0)
    decreases |rs|
  {
    if |rs| == 0 then Ok((s, []))
    else match Reap(s, rs[0])
      case Err(c) => Err(c)
      case Ok((s1, more, effs)) =>
        if !more then Ok((s1, effs))
        else match Drain(s1, rs[1..])
          case Err(c) => Err(c)
          case Ok((s2, effs2)) => Ok((s2, effs + effs2))
  }

  /** `usb_dev::handle_events`: drain, then re-arm when no read is in flight. */
  function HandleEvents(s: UsbState, rs: seq<ReapResult>): (r: Result<(UsbState, seq<Effect>)>)
    requires ReapsWellFormed(rs)
    ensures r.Ok? && |s.transfers| <= 1 ==> |r.value.0.transfers| == 1
    ensures r.Ok? && IdsFresh(s) ==> IdsFresh(r.value.0)
  {
    match Drain(s, rs)
    case Err(c) => Err(c)
    case Ok((s1, effs)) =>
      if |s1.transfers| == 0 then
        var (s2, arm) := ArmRead(s1);
        Ok((s2, effs + arm))
      else Ok((s1, effs))
  }

  /** The constructor: scan the device nodes, claim interface 2 of the switch
      and write one heartbeat, then arm the 10 microsecond poll timer and one
      read with id 0. `claimOk` and `timerArmed` are the kernel's answers to
      the claim and to arming the timer; registering the timer with the
      event loop is left to the daemon. */
  function Construct(nodes: seq<NodeProbe>, claimOk: bool, timerArmed: bool): (r: Result<(UsbState, seq<Effect>)>)
    ensures r.Ok? <==> SelectNode(nodes).Ok? && claimOk && timerArmed
    ensures r.Ok? ==> r.value.0 == UsbState(None, [0], 1)
    ensures r.Ok? ==> r.value.1 == [Write(HeartbeatFrame()), Submit(0)]
  {
    match SelectNode(nodes)
    case Err(c) => Err(c)
    case Ok(_) =>
      if !claimOk then Err("failed to claim hid dev")
      else if !timerArmed then Err("failed to arm timer")
      else
        var (s, arm) := ArmRead(UsbState(None, [], 0));
        Ok((s, [Write(HeartbeatFrame())] + arm))
  }

  /** `usb_dev::heartbeat` writes one heartbeat frame. */
  function Heartbeat(): seq<Effect>
  {
    [Write(HeartbeatFrame())]
  }

  // ---------------------------------------------------------------------
  // Properties

  /** Two consecutive reports with the same screen and border produce one
      crossing frame: the second send is a no-op. */
  lemma DedupIdempotent(s: UsbState, mp: MousePos, mp2: MousePos)
    requires mp2.screen == mp.screen && mp2.border == mp.border
    ensures var (s1, e1) := SendMousePos(s, mp);
      SendMousePos(s1, mp2) == (s1, [])
  {
  }

  /** A report that differs in screen or border from the last one sent always
      goes out. */
  lemma DifferentReportIsSent(s: UsbState, mp: MousePos, mp2: MousePos)
    requires mp2.screen != mp.screen || mp2.border != mp.border
    ensures var (s1, e1) := SendMousePos(s, mp);
      SendMousePos(s1, mp2).1 == [Write(CrossingFrame(mp2)), Write(DoneFrame())]
  {
  }

  /** After a placement frame has been reaped, the next crossing report goes
      out even if it repeats the report sent before the placement. */
  lemma PlacementResetsDedup(s: UsbState, id: nat, mp: MousePos, next: MousePos)
    ensures var rr := Completed(id, 0, READ_ENDPOINT, PlaceFrame(mp));
      && Reap(s, rr).Ok?
      && Reap(s, rr).value.2 == [Place(mp), Write(DoneFrame())]
      && SendMousePos(Reap(s, rr).value.0, next).1 == [Write(CrossingFrame(next)), Write(DoneFrame())]
  {
    PlaceRoundTrip(mp);
  }

  /** Reaping the one read in flight leaves none, and `handle_events` then arms
      exactly one fresh read whose id is larger than every earlier one. */
  lemma CompletionIsReplaced(s: UsbState, buf: seq<byte>)
    requires |s.transfers| == 1 && IdsFresh(s) && |buf| == FRAME_SIZE
    ensures var rs := [Completed(s.transfers[0], 0, READ_ENDPOINT, buf), WouldBlock];
      && HandleEvents(s, rs).Ok?
      && HandleEvents(s, rs).value.0.transfers == [s.lastId]
  {
    var rs := [Completed(s.transfers[0], 0, READ_ENDPOINT, buf), WouldBlock];
    assert RemoveId(s.transfers, s.transfers[0]) == [] by {
      assert s.transfers == [s.transfers[0]];
    }
    var r0 := Reap(s, rs[0]);
    assert r0.Ok? && r0.value.1 && r0.value.0.transfers == [];
    assert rs[1..] == [WouldBlock];
    assert Drain(r0.value.0, rs[1..]) == Ok((r0.value.0, [])) by {
      assert Reap(r0.value.0, WouldBlock) == Ok((r0.value.0, false, []));
    }
    var d := Drain(s, rs);
    assert r0.value.2 + [] == r0.value.2;
    assert d.Ok? && d.value.0 == r0.value.0;
  }
}
