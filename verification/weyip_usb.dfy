/**
 * The device registry and the report exchange of the polling generation
 * (weyip_usb.c): up to 32 registered HID interfaces of the switch, the
 * 64-byte placement read (two attempts per registered device) and the
 * crossing, done and heartbeat writes, which only ever use the first
 * registered device. libusb's answers are parameters: the handle a claim
 * gives, and the result of each interrupt transfer.
 */
module WeyipUsb {
  import opened Common
  import opened Types
  import opened Frame
  import opened UsbHelper

  const USB_BUFFER_SIZE: nat := 64
  const WEY_DEVICES_MAX: nat := 32
  const WEY_VENDOR: int := 0x1B07
  const WEY_PRODUCT_MIN: int := 0x1000
  const WEY_PRODUCT_MAX: int := 0x10FF
  /** Direction bit of an endpoint address (section 9.6.6 of USB 2.0). */
  const ENDPOINT_IN: int := 0x80
  /** `read_mouse_position` returns -4 when the device is gone. */
  const ERR_NO_DEVICE: int := -4

  /** One entry of `wey_devices`; `dev` and `udev` are the libusb device and
      handle, None for NULL. */
  datatype Slot = Slot(dev: Option<nat>, udev: Option<nat>, iface: int, epOut: int, epIn: int, up: int, vid: int, pid: int)

  /** The static array of 32 slots and the number of registered entries. */
  datatype Registry = Registry(slots: seq<Slot>, index: nat)

  predicate Valid(r: Registry)
  {
    |r.slots| == WEY_DEVICES_MAX && r.index <= WEY_DEVICES_MAX
  }

  /** The zero-initialised static storage before the first enumeration. */
  function Zeroed(): (r: Registry)
    ensures Valid(r) && r.index == 0
  {
    Registry(seq(WEY_DEVICES_MAX, _ => Slot(None, None, 0, 0, 0, 0, 0, 0)), 0)
  }

  /** The handles of the registered slots among the first `n`, in order. */
  function OpenHandles(slots: seq<Slot>, n: nat): (hs: seq<nat>)
    requires n <= |slots|
    ensures |hs| <= n
    ensures forall h :: h in hs <==> exists i :: 0 <= i < n && slots[i].udev == Some(h)
  {
    if n == 0 then []
    else
      var earlier := OpenHandles(slots, n - 1);
      match slots[n - 1].udev
      case None => earlier
      case Some(h) => earlier + [h]
  }

  /** `wey_devices_init`: releases and closes the handles of the registered
      slots, then empties every slot's device and handle and the index. The
      other fields keep their stale values. Returns the closed handles. */
  function Init(r: Registry): (res: (Registry, seq<nat>))
    requires Valid(r)
    ensures Valid(res.0) && res.0.index == 0
    ensures forall i :: 0 <= i < WEY_DEVICES_MAX ==> res.0.slots[i].dev.None? && res.0.slots[i].udev.None?
    ensures forall i :: 0 <= i < WEY_DEVICES_MAX ==>
      res.0.slots[i] == r.slots[i].(dev := None, udev := None)
    ensures res.1 == OpenHandles(r.slots, r.index)
  {
    (Registry(seq(WEY_DEVICES_MAX, i requires 0 <= i < WEY_DEVICES_MAX => r.slots[i].(dev := None, udev := None)), 0),
     OpenHandles(r.slots, r.index))
  }

  /** The endpoint pair in ascending order. */
  function SortEndpoints(ep0: int, ep1: int): (r: (int, int))
    ensures r.0 <= r.1
    ensures (r.0 == ep0 && r.1 == ep1) || (r.0 == ep1 && r.1 == ep0)
  {
    if ep1 < ep0 then (ep1, ep0) else (ep0, ep1)
  }

  /** The filter of `wey_devices_add`, on sorted endpoints. */
  predicate Accepts(r: Registry, dev: Option<nat>, ep0: int, ep1: int, up: int, vid: int, pid: int)
  {
    && dev.Some?
    && vid == WEY_VENDOR && WEY_PRODUCT_MIN <= pid <= WEY_PRODUCT_MAX
    && ((ep0 == 0 && ep1 == 0) || (ep0 < ENDPOINT_IN && ep1 >= ENDPOINT_IN))
    && up == USAGE_PAGE_SWITCH
    && r.index < WEY_DEVICES_MAX
  }

  /** `wey_devices_add`: registers the interface in the next slot if it
      passes the filter; the handle is whatever claiming it gave (possibly
      none). `handle` and `claimOk` are libusb's answers to the open and the
      claim. */
  function Add(r: Registry, dev: Option<nat>, iface: int, ep0: int, ep1: int, up: int, vid: int, pid: int,
               handle: Option<nat>, claimOk: bool): (r': Registry)
    requires Valid(r)
    ensures Valid(r')
    ensures var (lo, hi) := SortEndpoints(ep0, ep1);
      Accepts(r, dev, lo, hi, up, vid, pid) ==>
        && r'.index == r.index + 1
        && r'.slots == r.slots[r.index := Slot(dev, ClaimHidDevice(dev, handle, claimOk), iface, lo, hi, up, vid, pid)]
    ensures var (lo, hi) := SortEndpoints(ep0, ep1);
      !Accepts(r, dev, lo, hi, up, vid, pid) ==> r' == r
  {
    var (lo, hi) := SortEndpoints(ep0, ep1);
    if Accepts(r, dev, lo, hi, up, vid, pid) then
      var slot := Slot(dev, ClaimHidDevice(dev, handle, claimOk), iface, lo, hi, up, vid, pid);
      Registry(r.slots[r.index := slot], r.index + 1)
    else r
  }

  // ---------------------------------------------------------------------
  // Reading a placement

  /** The buffer after a transfer moved `data` into it. */
  function Overlay(buffer: seq<byte>, data: seq<byte>): (b: seq<byte>)
    ensures |b| == |buffer|
    ensures |data| >= |buffer| ==> b == data[..|buffer|]
  {
    if |data| >= |buffer| then data[..|buffer|] else data + buffer[|data|..]
  }

  /** What `read_mouse_position` did: the registry afterwards, the handles
      closed, its return value, the message accepted, and what it stored
      through each out pointer (None when the pointer was NULL or nothing
      was stored). */
  datatype ReadOutcome = ReadOutcome(
    reg: Registry,
    closed: seq<nat>,
    status: int,
    accepted: Option<MousePos>,
    screen: Option<byte>,
    border: Option<byte>,
    pos: Option<u16>)

  /** Out pointers that are not NULL. */
  datatype OutPointers = OutPointers(screen: bool, border: bool, pos: bool)

  function Accept(r: Registry, mp: MousePos, outs: OutPointers): (o: ReadOutcome)
  {
    ReadOutcome(r, [], 0, Some(mp),
      if outs.screen then Some(mp.screen) else None,
      if outs.border then Some(mp.border) else None,
      if outs.pos then Some(mp.pos) else None)
  }

  /** Attempt `y` on registered device `x` has a handle and its read
      returned 0. */
  predicate ReadSucceeded(r: Registry, answer: (nat, nat) -> Transfer, x: nat, y: nat)
  {
    && x < r.index && x < |r.slots| && y < 2
    && r.slots[x].dev.Some? && r.slots[x].udev.Some?
    && ReadHid(true, true, USB_BUFFER_SIZE, answer(x, y)) == 0
  }

  /** The two nested loops of `read_mouse_position` from device `i`,
      attempt `n`; `answer(i, n)` is that transfer's result. The buffer is
      shared by all attempts. */
  function ReadFrom(r: Registry, i: nat, n: nat, buffer: seq<byte>, answer: (nat, nat) -> Transfer, outs: OutPointers): (o: ReadOutcome)
    requires Valid(r) && |buffer| == USB_BUFFER_SIZE && n <= 2
    ensures o.status == 0 || o.status == -1 || o.status == ERR_NO_DEVICE
    ensures o.status == ERR_NO_DEVICE ==> (o.reg, o.closed) == Init(r)
    ensures o.status != ERR_NO_DEVICE ==> o.reg == r && o.closed == []
    ensures o.status == 0 <==> o.accepted.Some?
    ensures o.screen.Some? <==> o.status == 0 && outs.screen
    ensures o.border.Some? <==> o.status == 0 && outs.border
    ensures o.pos.Some? <==> o.status == 0 && outs.pos
    ensures o.screen.Some? ==> o.screen.value == o.accepted.value.screen
    ensures o.border.Some? ==> o.border.value == o.accepted.value.border
    ensures o.pos.Some? ==> o.pos.value == o.accepted.value.pos
    decreases WEY_DEVICES_MAX - i, 2 - n
  {
    if i >= r.index || r.slots[i].dev.None? then ReadOutcome(r, [], -1, None, None, None, None)
    else if n == 2 then ReadFrom(r, i + 1, 0, buffer, answer, outs)
    else
      var slot := r.slots[i];
      var t := answer(i, n);
      var buf := if ReadAttempted(slot.udev.Some?, true, USB_BUFFER_SIZE) then Overlay(buffer, t.data) else buffer;
      var err := ReadHid(slot.udev.Some?, true, USB_BUFFER_SIZE, t);
      if err == 0 && DecodePlacement(buf).Some? then Accept(r, DecodePlacement(buf).value, outs)
      else if err == ERR_NO_DEVICE then
        var (cleared, closed) := Init(r);
        ReadOutcome(cleared, closed, ERR_NO_DEVICE, None, None, None, None)
      else ReadFrom(r, i, n + 1, buf, answer, outs)
  }

  /** `read_mouse_position`. */
  function ReadMousePosition(r: Registry, answer: (nat, nat) -> Transfer, outs: OutPointers): (o: ReadOutcome)
    requires Valid(r)
    ensures o.status == 0 || o.status == -1 || o.status == ERR_NO_DEVICE
    ensures o.status != ERR_NO_DEVICE ==> o.reg == r
    ensures r.index == 0 ==> o.status == -1
  {
    ReadFrom(r, 0, 0, Zeros(USB_BUFFER_SIZE), answer, outs)
  }

  // ---------------------------------------------------------------------
  // Writing

  /** Whether the sends have a device to write to: only the first slot is
      ever used. */
  predicate HasFirstDevice(r: Registry)
  {
    r.index > 0 && |r.slots| > 0 && r.slots[0].dev.Some?
  }

  /** What a send did: its return value and the frame written, with the
      endpoint, if a transfer took place. */
  datatype SendOutcome = SendOutcome(status: int, written: Option<(int, seq<byte>)>)

  /** The loop shared by the three sends: the first registered device gets
      the frame; `ret` is the transfer's result. */
  function SendFrame(r: Registry, frame: seq<byte>, ret: int): (o: SendOutcome)
    requires |frame| == USB_BUFFER_SIZE
    ensures !HasFirstDevice(r) ==> o == SendOutcome(-1, None)
    ensures HasFirstDevice(r) && r.slots[0].udev.None? ==> o == SendOutcome(-1, None)
    ensures HasFirstDevice(r) && r.slots[0].udev.Some? ==> o == SendOutcome(ret, Some((r.slots[0].epOut, frame)))
  {
    if !HasFirstDevice(r) then SendOutcome(-1, None)
    else
      var slot := r.slots[0];
      var status := WriteHid(slot.udev.Some?, true, USB_BUFFER_SIZE, ret);
      if slot.udev.Some? then SendOutcome(status, Some((slot.epOut, frame))) else SendOutcome(status, None)
  }

  /** `send_mouse_position`. */
  function SendMousePosition(r: Registry, screen: byte, border: byte, position: u16, ret: int): (o: SendOutcome)
    ensures o.written.Some? ==> o.written.value.1 == CrossingFrame(MousePos(screen, border, position))
    ensures o.written.None? ==> o.status == -1
  {
    SendFrame(r, CrossingFrame(MousePos(screen, border, position)), ret)
  }

  /** `send_mouse_positioning_done`. */
  function SendPositioningDone(r: Registry, ret: int): (o: SendOutcome)
    ensures o.written.Some? ==> o.written.value.1 == DoneFrame()
    ensures o.written.None? ==> o.status == -1
  {
    SendFrame(r, DoneFrame(), ret)
  }

  /** `send_heartbeat`: like the other sends, but a device reported gone
      (-4) clears the registry. */
  function SendHeartbeat(r: Registry, ret: int): (res: (Registry, seq<nat>, SendOutcome))
    requires Valid(r)
    ensures res.2.written.Some? ==> res.2.written.value.1 == HeartbeatFrame()
    ensures res.2.status == ERR_NO_DEVICE ==> (res.0, res.1) == Init(r)
    ensures res.2.status != ERR_NO_DEVICE ==> res.0 == r && res.1 == []
  {
    var o := SendFrame(r, HeartbeatFrame(), ret);
    if o.status == ERR_NO_DEVICE then
      var (cleared, closed) := Init(r);
      (cleared, closed, o)
    else (r, [], o)
  }

  // ---------------------------------------------------------------------
  // Properties

  /** A switch interface announcing its endpoints in either order is
      registered with the OUT endpoint first. */
  lemma EndpointOrderIrrelevant(r: Registry, dev: nat, iface: int, epIn: int, epOut: int, handle: Option<nat>, claimOk: bool)
    requires Valid(r) && r.index < WEY_DEVICES_MAX
    requires 0 <= epOut < ENDPOINT_IN <= epIn
    ensures Add(r, Some(dev), iface, epIn, epOut, USAGE_PAGE_SWITCH, WEY_VENDOR, 0x1000, handle, claimOk)
         == Add(r, Some(dev), iface, epOut, epIn, USAGE_PAGE_SWITCH, WEY_VENDOR, 0x1000, handle, claimOk)
    ensures var r' := Add(r, Some(dev), iface, epIn, epOut, USAGE_PAGE_SWITCH, WEY_VENDOR, 0x1000, handle, claimOk);
      r'.index == r.index + 1 && r'.slots[r.index].epOut == epOut && r'.slots[r.index].epIn == epIn
  {
  }

  /** Two OUT endpoints (or two IN endpoints) are never registered. */
  lemma SameDirectionRejected(r: Registry, dev: nat, iface: int, ep0: int, ep1: int, handle: Option<nat>, claimOk: bool)
    requires Valid(r)
    requires (0 < ep0 < ENDPOINT_IN && 0 < ep1 < ENDPOINT_IN) || (ep0 >= ENDPOINT_IN && ep1 >= ENDPOINT_IN)
    ensures Add(r, Some(dev), iface, ep0, ep1, USAGE_PAGE_SWITCH, WEY_VENDOR, 0x1000, handle, claimOk) == r
  {
  }

  /** A full registry accepts nothing more. */
  lemma FullRegistryUnchanged(r: Registry, dev: Option<nat>, iface: int, ep0: int, ep1: int, up: int, vid: int, pid: int,
                              handle: Option<nat>, claimOk: bool)
    requires Valid(r) && r.index == WEY_DEVICES_MAX
    ensures Add(r, dev, iface, ep0, ep1, up, vid, pid, handle, claimOk) == r
  {
  }

  /** A placement frame read on the first attempt from the first device is
      decoded to the message it encodes, and every non-NULL out pointer
      receives its field. */
  lemma ReadRoundTrip(r: Registry, answer: (nat, nat) -> Transfer, outs: OutPointers, mp: MousePos)
    requires Valid(r) && HasFirstDevice(r) && r.slots[0].udev.Some?
    requires answer(0, 0).data == PlaceFrame(mp)
    ensures var o := ReadMousePosition(r, answer, outs);
      && o.status == 0 && o.accepted == Some(mp)
      && (outs.screen ==> o.screen == Some(mp.screen))
      && (outs.border ==> o.border == Some(mp.border))
      && (outs.pos ==> o.pos == Some(mp.pos))
  {
    var buffer := Zeros(USB_BUFFER_SIZE);
    assert Overlay(buffer, PlaceFrame(mp)) == PlaceFrame(mp);
    PlaceRoundTrip(mp);
  }

  /** Attempt `(x, y)` comes before attempt `(d, a)` in the order of the two
      nested loops: devices in slot order, attempts in order within each. */
  predicate Earlier(x: nat, y: nat, d: nat, a: nat)
  {
    x < d || (x == d && y < a)
  }

  /** The first placement frame in loop order is the one accepted: when every
      device up to `d` is registered, every earlier attempt on a device with a
      handle moved a full frame that is not a placement, and attempt `(d, a)`
      moved a full placement frame, the read accepts exactly that message. */
  lemma FirstPlacementAccepted(r: Registry, answer: (nat, nat) -> Transfer, outs: OutPointers, d: nat, a: nat, mp: MousePos)
    requires Valid(r) && d < r.index && a < 2
    requires forall k :: 0 <= k <= d ==> r.slots[k].dev.Some?
    requires r.slots[d].udev.Some?
    requires forall x: nat, y: nat :: Earlier(x, y, d, a) && y < 2 && r.slots[x].udev.Some?
               ==> |answer(x, y).data| == USB_BUFFER_SIZE && DecodePlacement(answer(x, y).data).None?
    requires |answer(d, a).data| == USB_BUFFER_SIZE && DecodePlacement(answer(d, a).data) == Some(mp)
    ensures ReadMousePosition(r, answer, outs) == Accept(r, mp, outs)
  {
    FirstPlacementFrom(r, 0, 0, Zeros(USB_BUFFER_SIZE), answer, outs, d, a, mp);
  }

  /** FirstPlacementAccepted from attempt `(i, n)` on, whatever the buffer. */
  lemma {:induction false} FirstPlacementFrom(r: Registry, i: nat, n: nat, buffer: seq<byte>, answer: (nat, nat) -> Transfer,
                                              outs: OutPointers, d: nat, a: nat, mp: MousePos)
    requires Valid(r) && |buffer| == USB_BUFFER_SIZE && n <= 2
    requires d < r.index && a < 2 && (i < d || (i == d && n <= a))
    requires forall k :: i <= k <= d ==> r.slots[k].dev.Some?
    requires r.slots[d].udev.Some?
    requires forall x: nat, y: nat :: Earlier(x, y, d, a) && y < 2 && r.slots[x].udev.Some?
               ==> |answer(x, y).data| == USB_BUFFER_SIZE && DecodePlacement(answer(x, y).data).None?
    requires |answer(d, a).data| == USB_BUFFER_SIZE && DecodePlacement(answer(d, a).data) == Some(mp)
    ensures ReadFrom(r, i, n, buffer, answer, outs) == Accept(r, mp, outs)
    decreases WEY_DEVICES_MAX - i, 2 - n
  {
    if n == 2 {
      FirstPlacementFrom(r, i + 1, 0, buffer, answer, outs, d, a, mp);
    } else if r.slots[i].udev.None? {
      assert Earlier(i, n, d, a);
      FirstPlacementFrom(r, i, n + 1, buffer, answer, outs, d, a, mp);
    } else {
      var t := answer(i, n);
      assert |t.data| == USB_BUFFER_SIZE;
      var buf := Overlay(buffer, t.data);
      assert buf == t.data;
      assert ReadHid(true, true, USB_BUFFER_SIZE, t) == 0;
      if i != d || n != a {
        assert Earlier(i, n, d, a);
        FirstPlacementFrom(r, i, n + 1, buf, answer, outs, d, a, mp);
      }
    }
  }

  /** A message is only ever accepted right after a read on a registered
      device with a handle returned 0. */
  lemma {:induction false} AcceptedAfterSuccessfulRead(r: Registry, i: nat, n: nat, buffer: seq<byte>, answer: (nat, nat) -> Transfer, outs: OutPointers)
    requires Valid(r) && |buffer| == USB_BUFFER_SIZE && n <= 2
    requires ReadFrom(r, i, n, buffer, answer, outs).accepted.Some?
    ensures exists x: nat, y: nat :: i <= x && ReadSucceeded(r, answer, x, y)
    decreases WEY_DEVICES_MAX - i, 2 - n
  {
    if n == 2 {
      AcceptedAfterSuccessfulRead(r, i + 1, 0, buffer, answer, outs);
    } else {
      var t := answer(i, n);
      var buf := if ReadAttempted(r.slots[i].udev.Some?, true, USB_BUFFER_SIZE) then Overlay(buffer, t.data) else buffer;
      var err := ReadHid(r.slots[i].udev.Some?, true, USB_BUFFER_SIZE, t);
      if err == 0 && DecodePlacement(buf).Some? {
        assert ReadSucceeded(r, answer, i, n);
      } else {
        AcceptedAfterSuccessfulRead(r, i, n + 1, buf, answer, outs);
      }
    }
  }

  /** A frame that is not a placement is never accepted: with only such
      frames and no -4, the read fails with -1 and leaves everything as it
      was. */
  lemma {:induction false} NonPlacementsIgnored(r: Registry, i: nat, n: nat, buffer: seq<byte>, answer: (nat, nat) -> Transfer, outs: OutPointers)
    requires Valid(r) && |buffer| == USB_BUFFER_SIZE && n <= 2
    requires DecodePlacement(buffer).None?
    requires forall a, b :: answer(a, b).ret != ERR_NO_DEVICE
    requires forall a, b :: |answer(a, b).data| >= 2 && !(answer(a, b).data[0] == REPORT_ID && answer(a, b).data[1] == CMD_PLACE)
    ensures ReadFrom(r, i, n, buffer, answer, outs) == ReadOutcome(r, [], -1, None, None, None, None)
    decreases WEY_DEVICES_MAX - i, 2 - n
  {
    if i >= r.index || r.slots[i].dev.None? {
    } else if n == 2 {
      NonPlacementsIgnored(r, i + 1, 0, buffer, answer, outs);
    } else {
      var slot := r.slots[i];
      var t := answer(i, n);
      var buf := if ReadAttempted(slot.udev.Some?, true, USB_BUFFER_SIZE) then Overlay(buffer, t.data) else buffer;
      if ReadAttempted(slot.udev.Some?, true, USB_BUFFER_SIZE) {
        assert buf[0] == t.data[0] && buf[1] == t.data[1];
      }
      assert DecodePlacement(buf).None?;
      var err := ReadHid(slot.udev.Some?, true, USB_BUFFER_SIZE, t);
      assert err != ERR_NO_DEVICE;
      NonPlacementsIgnored(r, i, n + 1, buf, answer, outs);
    }
  }

  /** After a device was reported gone, every send refuses with -1 and
      writes nothing until the registry is filled again. */
  lemma ClearedRegistryRefusesSends(r: Registry, ret: int, ret2: int)
    requires Valid(r)
    requires SendHeartbeat(r, ret).2.status == ERR_NO_DEVICE
    ensures var r' := SendHeartbeat(r, ret).0;
      && SendMousePosition(r', 0, TOP, 0, ret2) == SendOutcome(-1, None)
      && SendPositioningDone(r', ret2) == SendOutcome(-1, None)
  {
  }
}
