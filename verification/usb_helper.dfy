/**
 * The libusb helpers of the polling generation (usb_helper.c): the search
 * for the vendor usage page 0xFF20 in a HID report descriptor (short items,
 * section 6.2.2.2 of the Device Class Definition for HID 1.11; Usage Page,
 * section 6.2.2.7), the checks on the HID class descriptor (section 6.2.1),
 * the walk over an interface's extra descriptors, and the result rules of
 * the interrupt read and write wrappers. Every libusb call is replaced by
 * its answer.
 */
module UsbHelper {
  import opened Common

  const USAGE_PAGE_SWITCH: nat := 0xFF20
  /** The global item tag Usage Page with its two size bits cleared. */
  const TAG_USAGE_PAGE: nat := 0x04
  const DATA_UNSET: nat := 0xffff
  const DT_HID: byte := 0x21
  const DT_REPORT: byte := 0x22
  const CLASS_HID: int := 3
  const REPORT_BUFFER_SIZE: nat := 8192
  /** `usb_get_usage_page` returns `-1` as an `unsigned int`. */
  const NO_INTERFACE: nat := 0xFFFF_FFFF

  // ---------------------------------------------------------------------
  // Short items of a report descriptor

  /** Data size of a short item: the prefix's two low bits, 3 meaning 4. */
  function ItemSize(prefix: byte): (n: nat)
    ensures n <= 4 && n != 3
    ensures prefix % 4 == 3 <==> n == 4
    ensures prefix % 4 != 3 ==> n == prefix % 4
  {
    if prefix % 4 == 3 then 4 else prefix % 4
  }

  /** The prefix with its size bits cleared: type and tag. */
  function ItemTag(prefix: byte): (t: nat)
    ensures t % 4 == 0 && t <= prefix && prefix - t < 4
  {
    prefix - prefix % 4
  }

  /** Item data assembled least significant byte first. */
  function LittleEndian(bs: seq<byte>): (v: nat)
    decreases |bs|
  {
    if |bs| == 0 then 0 else bs[0] + 0x100 * LittleEndian(bs[1..])
  }

  /** The parser of `usb_get_usage_page_from_report_desc` from the item at
      the front of `buf`, `data` holding the value of the last item that had
      data. A zero-size item keeps the previous data, even for its own tag
      test. An item whose data runs past the end reads bytes the descriptor
      does not have; that is an error here. */
  function Scan(buf: seq<byte>, data: nat): (r: Result<nat>)
    ensures r.Ok? ==> r.value == USAGE_PAGE_SWITCH || r.value == 0
    ensures |buf| > 0 && 1 + ItemSize(buf[0]) > |buf| ==> r.Err?
    decreases |buf|
  {
    if |buf| == 0 then Ok(0)
    else
      var size := ItemSize(buf[0]);
      if 1 + size > |buf| then Err("report descriptor item runs past the end")
      else
        var d := if size > 0 then LittleEndian(buf[1..1 + size]) else data;
        if ItemTag(buf[0]) == TAG_USAGE_PAGE && d == USAGE_PAGE_SWITCH then Ok(USAGE_PAGE_SWITCH)
        else Scan(buf[1 + size..], d)
  }

  /** `usb_get_usage_page_from_report_desc`: 0xFF20 if found, 0 otherwise or
      for a missing buffer. */
  function UsagePageFromReportDesc(buf: Option<seq<byte>>): (r: Result<nat>)
    ensures buf.None? ==> r == Ok(0)
    ensures buf.Some? ==> r == Scan(buf.value, DATA_UNSET)
  {
    match buf
    case None => Ok(0)
    case Some(b) => Scan(b, DATA_UNSET)
  }

  /** A short item as it appears in a descriptor. */
  datatype Item = Item(prefix: byte, payload: seq<byte>)

  predicate WellSized(it: Item)
  {
    |it.payload| == ItemSize(it.prefix)
  }

  predicate AllWellSized(items: seq<Item>)
  {
    forall k :: 0 <= k < |items| ==> WellSized(items[k])
  }

  /** The bytes of a list of items. */
  function Serialize(items: seq<Item>): (bs: seq<byte>)
    decreases |items|
  {
    if |items| == 0 then [] else [items[0].prefix] + items[0].payload + Serialize(items[1..])
  }

  /** Cuts a descriptor into items; None when the last item is incomplete. */
  function Split(buf: seq<byte>): (r: Option<seq<Item>>)
    ensures r.Some? ==> AllWellSized(r.value)
    decreases |buf|
  {
    if |buf| == 0 then Some([])
    else
      var size := ItemSize(buf[0]);
      if 1 + size > |buf| then None
      else match Split(buf[1 + size..])
        case None => None
        case Some(rest) => Some([Item(buf[0], buf[1..1 + size])] + rest)
  }

  /** The data in force at item `k`: that of the closest item at or before
      `k` that has data, or `init` when there is none. */
  function DataAt(items: seq<Item>, k: nat, init: nat): nat
    requires k < |items|
    decreases k
  {
    if |items[k].payload| > 0 then LittleEndian(items[k].payload)
    else if k == 0 then init
    else DataAt(items, k - 1, init)
  }

  /** Item `k` announces the switch's usage page. */
  predicate AnnouncesSwitch(items: seq<Item>, k: nat, init: nat)
    requires k < |items|
  {
    ItemTag(items[k].prefix) == TAG_USAGE_PAGE && DataAt(items, k, init) == USAGE_PAGE_SWITCH
  }

  // ---------------------------------------------------------------------
  // The HID class descriptor (section 6.2.1 of HID 1.11)

  /** The checks of `usb_get_usage_page_hid_device` on the descriptor:
      at least six bytes, type HID, and both bLength and the buffer long
      enough for bNumDescriptors three-byte entries. */
  predicate HidDescriptorOk(buf: seq<byte>)
  {
    |buf| >= 6 && buf[1] == DT_HID && buf[0] as int >= 6 + 3 * (buf[5] as int) && |buf| >= 6 + 3 * (buf[5] as int)
  }

  /** Type of the i-th class descriptor entry. */
  function EntryType(buf: seq<byte>, i: nat): byte
    requires HidDescriptorOk(buf) && i < buf[5]
  {
    buf[6 + 3 * i]
  }

  /** Length of the i-th entry, little-endian. */
  function EntryLength(buf: seq<byte>, i: nat): (len: nat)
    requires HidDescriptorOk(buf) && i < buf[5]
    ensures len == LittleEndian(buf[6 + 3 * i + 1..6 + 3 * i + 3])
    ensures len < 0x1_0000
  {
    var lo := buf[6 + 3 * i + 1];
    var hi := buf[6 + 3 * i + 2];
    assert buf[6 + 3 * i + 1..6 + 3 * i + 3] == [lo, hi];
    LittleEndianTwo(lo, hi);
    lo as int + 0x100 * (hi as int)
  }

  /** What opening the device, claiming the interface and requesting the
      report descriptor gave for one entry. */
  datatype Fetch =
    | OpenFailed                 // no handle: the search ends with 0
    | ClaimFailed                // the claim failed (also after its retry): next entry
    | ControlFailed              // the control transfer returned no bytes
    | Transferred(data: seq<byte>)  // the bytes of the report descriptor

  /** The entry loop of `usb_get_usage_page_hid_device` from entry `i`. Only
      entries of type Report and length at most 8192 are fetched; the first
      fetch that claims the interface decides the result. */
  function ReportEntries(buf: seq<byte>, i: nat, fetch: nat -> Fetch): (r: Result<nat>)
    requires HidDescriptorOk(buf)
    ensures r.Ok? ==> r.value == USAGE_PAGE_SWITCH || r.value == 0
    decreases buf[5] - i
  {
    if i >= buf[5] then Ok(0)
    else if EntryType(buf, i) != DT_REPORT || EntryLength(buf, i) > REPORT_BUFFER_SIZE then ReportEntries(buf, i + 1, fetch)
    else match fetch(i)
      case OpenFailed => Ok(0)
      case ClaimFailed => ReportEntries(buf, i + 1, fetch)
      case ControlFailed => Ok(0)
      case Transferred(data) => if |data| == 0 then Ok(0) else UsagePageFromReportDesc(Some(data))
  }

  /** `usb_get_usage_page_hid_device`: 0 for a missing device, interface or
      buffer and for a descriptor that fails the checks. */
  function UsagePageHidDevice(devOk: bool, ifaceOk: bool, buf: Option<seq<byte>>, fetch: nat -> Fetch): (r: Result<nat>)
    ensures !devOk || !ifaceOk || buf.None? ==> r == Ok(0)
    ensures buf.Some? && !HidDescriptorOk(buf.value) ==> r == Ok(0)
  {
    if !devOk || !ifaceOk || buf.None? || !HidDescriptorOk(buf.value) then Ok(0)
    else ReportEntries(buf.value, 0, fetch)
  }

  /** The walk of `usb_get_usage_page` over the extra descriptors: while at
      least two bytes remain and the current length fits, a HID descriptor
      of a HID-class interface is handed on; anything else is skipped by its
      length byte. A zero length byte would repeat the same descriptor
      forever; that is an error here. */
  function WalkExtra(extra: seq<byte>, ifaceClass: int, fetch: nat -> Fetch): (r: Result<nat>)
    ensures ifaceClass != CLASS_HID ==> r.Err? || r == Ok(0)
    ensures r.Ok? ==> r.value == USAGE_PAGE_SWITCH || r.value == 0
    decreases |extra|
  {
    if |extra| < 2 || |extra| < extra[0] then Ok(0)
    else if extra[1] == DT_HID && ifaceClass == CLASS_HID then UsagePageHidDevice(true, true, Some(extra), fetch)
    else if extra[0] == 0 then Err("zero-length descriptor: the walk does not advance")
    else WalkExtra(extra[extra[0]..], ifaceClass, fetch)
  }

  /** `usb_get_usage_page`. */
  function UsagePage(devOk: bool, ifaceOk: bool, extra: seq<byte>, ifaceClass: int, fetch: nat -> Fetch): (r: Result<nat>)
    ensures !devOk || !ifaceOk ==> r == Ok(NO_INTERFACE)
    ensures devOk && ifaceOk && |extra| == 0 ==> r == Ok(0)
    ensures devOk && ifaceOk && ifaceClass != CLASS_HID ==> r.Err? || r == Ok(0)
  {
    if !devOk || !ifaceOk then Ok(NO_INTERFACE)
    else if |extra| == 0 then Ok(0)
    else WalkExtra(extra, ifaceClass, fetch)
  }

  // ---------------------------------------------------------------------
  // Transfers

  const LIBUSB_ERROR_TIMEOUT: int := -7

  /** What one `libusb_interrupt_transfer` call answered: its return code
      and the bytes it moved (their number is `actual_length`). */
  datatype Transfer = Transfer(ret: int, data: seq<byte>)

  /** `usb_readHIDDevice`: -1 without any transfer unless the handle and the
      buffer are present and the length exceeds 3; a transfer that moved the
      full length succeeds whatever its return code (a spurious timeout). */
  function ReadHid(handleOk: bool, bufferOk: bool, len: int, t: Transfer): (r: int)
    ensures !(handleOk && bufferOk && len > 3) ==> r == -1
    ensures handleOk && bufferOk && len > 3 && |t.data| == len ==> r == 0
    ensures handleOk && bufferOk && len > 3 && |t.data| != len ==> r == t.ret
  {
    if handleOk && bufferOk && len > 3 then
      if |t.data| == len then 0 else t.ret
    else -1
  }

  /** Whether `usb_readHIDDevice` performs a transfer at all. */
  predicate ReadAttempted(handleOk: bool, bufferOk: bool, len: int)
  {
    handleOk && bufferOk && len > 3
  }

  /** `usb_writeHIDDevice`: -1 without any transfer unless the handle and the
      buffer are present and the length exceeds 5, else the transfer's code. */
  function WriteHid(handleOk: bool, bufferOk: bool, len: int, ret: int): (r: int)
    ensures !(handleOk && bufferOk && len > 5) ==> r == -1
    ensures handleOk && bufferOk && len > 5 ==> r == ret
  {
    if handleOk && bufferOk && len > 5 then ret else -1
  }

  /** `usb_claimHIDDevice`: a handle only if the device is present, opening
      gave a handle and the claim succeeded (a failed claim closes it). */
  function ClaimHidDevice(dev: Option<nat>, handle: Option<nat>, claimOk: bool): (r: Option<nat>)
    ensures r.Some? <==> dev.Some? && handle.Some? && claimOk
    ensures r.Some? ==> r == handle
  {
    if dev.None? || handle.None? || !claimOk then None else handle
  }

  // ---------------------------------------------------------------------
  // Properties

  lemma LittleEndianTwo(lo: byte, hi: byte)
    ensures LittleEndian([lo, hi]) == lo as int + 0x100 * (hi as int)
  {
    assert [lo, hi][1..] == [hi];
    assert [hi][1..] == [];
    assert LittleEndian([hi]) == hi as int;
  }

  /** A global Usage Page item `06 20 FF` at the front is found, whatever
      follows. */
  lemma SwitchPageFound(rest: seq<byte>, data: nat)
    ensures Scan([0x06, 0x20, 0xFF] + rest, data) == Ok(USAGE_PAGE_SWITCH)
  {
    var buf := [0x06, 0x20, 0xFF] + rest;
    assert buf[1..3] == [0x20, 0xFF];
    LittleEndianTwo(0x20, 0xFF);
  }

  /** Another vendor page such as 0xFF10 is not taken for the switch's page;
      the search goes on with the bytes after it. */
  lemma OtherVendorPageSkipped(rest: seq<byte>, data: nat)
    ensures Scan([0x06, 0x10, 0xFF] + rest, data) == Scan(rest, 0xFF10)
  {
    var buf := [0x06, 0x10, 0xFF] + rest;
    assert buf[1..3] == [0x10, 0xFF];
    LittleEndianTwo(0x10, 0xFF);
    assert buf[3..] == rest;
  }

  /** A zero-size Usage Page item inherits the previous data: after an item
      carrying 0xFF20 under another tag, `04` matches. */
  lemma ZeroSizeItemInheritsData(rest: seq<byte>)
    ensures Scan([0x0A, 0x20, 0xFF, 0x04] + rest, DATA_UNSET) == Ok(USAGE_PAGE_SWITCH)
  {
    var buf := [0x0A, 0x20, 0xFF, 0x04] + rest;
    assert buf[1..3] == [0x20, 0xFF];
    LittleEndianTwo(0x20, 0xFF);
    assert buf[3..] == [0x04] + rest;
  }

  /** Cutting a serialized list of well-sized items gives the items back. */
  lemma {:induction false} SplitSerialize(items: seq<Item>)
    requires AllWellSized(items)
    ensures Split(Serialize(items)) == Some(items)
    decreases |items|
  {
    if |items| > 0 {
      var it := items[0];
      var bs := Serialize(items);
      var size := ItemSize(it.prefix);
      assert bs == [it.prefix] + it.payload + Serialize(items[1..]);
      assert bs[0] == it.prefix;
      assert bs[1..1 + size] == it.payload;
      assert bs[1 + size..] == Serialize(items[1..]);
      SplitSerialize(items[1..]);
      assert [Item(bs[0], bs[1..1 + size])] + items[1..] == items;
    }
  }

  /** Serializing what was cut gives the descriptor back. */
  lemma {:induction false} SerializeSplit(buf: seq<byte>)
    requires Split(buf).Some?
    ensures Serialize(Split(buf).value) == buf
    decreases |buf|
  {
    if |buf| > 0 {
      var size := ItemSize(buf[0]);
      var tail := buf[1 + size..];
      SplitFirst(buf);
      SerializeSplit(tail);
      SerializeFirst(Item(buf[0], buf[1..1 + size]), Split(tail).value);
      assert buf == [buf[0]] + buf[1..1 + size] + tail;
    }
  }

  /** A non-empty descriptor that cuts is its first item followed by the
      cut of the rest. */
  lemma SplitFirst(buf: seq<byte>)
    requires |buf| > 0 && Split(buf).Some?
    ensures 1 + ItemSize(buf[0]) <= |buf|
    ensures Split(buf[1 + ItemSize(buf[0])..]).Some?
    ensures Split(buf).value
         == [Item(buf[0], buf[1..1 + ItemSize(buf[0])])] + Split(buf[1 + ItemSize(buf[0])..]).value
  {
  }

  /** The bytes of a list are those of its first item, then the rest. */
  lemma SerializeFirst(it: Item, items: seq<Item>)
    ensures Serialize([it] + items) == [it.prefix] + it.payload + Serialize(items)
  {
    assert ([it] + items)[1..] == items;
  }

  lemma {:induction false} DataAtShift(items: seq<Item>, k: nat, init: nat)
    requires 1 <= k < |items|
    ensures DataAt(items, k, init) == DataAt(items[1..], k - 1, DataAt(items, 0, init))
    decreases k
  {
    if |items[k].payload| > 0 {
    } else if k > 1 {
      DataAtShift(items, k - 1, init);
    }
  }

  /** The parser finds the switch's page exactly when some item announces it
      under the declarative reading of inherited data; a complete descriptor
      never overruns. */
  lemma {:induction false} ScanCharacterized(items: seq<Item>, init: nat)
    requires AllWellSized(items)
    ensures Scan(Serialize(items), init) ==
      if exists k :: 0 <= k < |items| && AnnouncesSwitch(items, k, init) then Ok(USAGE_PAGE_SWITCH) else Ok(0)
    decreases |items|
  {
    if |items| > 0 {
      var it := items[0];
      var bs := Serialize(items);
      var size := ItemSize(it.prefix);
      assert bs[0] == it.prefix;
      assert bs[1..1 + size] == it.payload;
      assert bs[1 + size..] == Serialize(items[1..]);
      var d := DataAt(items, 0, init);
      assert d == if size > 0 then LittleEndian(bs[1..1 + size]) else init;
      ScanCharacterized(items[1..], d);
      forall k | 1 <= k < |items|
        ensures AnnouncesSwitch(items, k, init) <==> AnnouncesSwitch(items[1..], k - 1, d)
      {
        DataAtShift(items, k, init);
      }
      if AnnouncesSwitch(items, 0, init) {
      } else if exists k :: 0 <= k < |items[1..]| && AnnouncesSwitch(items[1..], k, d) {
        var k :| 0 <= k < |items[1..]| && AnnouncesSwitch(items[1..], k, d);
        assert AnnouncesSwitch(items, k + 1, init);
      } else {
        forall k | 0 <= k < |items|
          ensures !AnnouncesSwitch(items, k, init)
        {
          if k > 0 {
            assert !AnnouncesSwitch(items[1..], k - 1, d);
          }
        }
      }
    }
  }

  /** The result on any descriptor that splits into complete items. */
  lemma ReportDescCharacterized(buf: seq<byte>)
    requires Split(buf).Some?
    ensures var items := Split(buf).value;
      UsagePageFromReportDesc(Some(buf)) ==
        if exists k :: 0 <= k < |items| && AnnouncesSwitch(items, k, DATA_UNSET) then Ok(USAGE_PAGE_SWITCH) else Ok(0)
  {
    SerializeSplit(buf);
    ScanCharacterized(Split(buf).value, DATA_UNSET);
  }

  /** The descriptors chained by their length bytes, up to the point where the
      walk stops, all have a positive length: the walk never lands on a zero
      length byte that it would have to step over. */
  predicate LengthsPositive(extra: seq<byte>)
    decreases |extra|
  {
    |extra| < 2 || |extra| < extra[0] || (extra[0] > 0 && LengthsPositive(extra[extra[0]..]))
  }

  /** For an interface that is not HID, the walk ends without error exactly
      when every length byte it reaches is positive; otherwise it stops on the
      zero length byte it cannot step over. */
  lemma {:induction false} WalkProgresses(extra: seq<byte>, ifaceClass: int, fetch: nat -> Fetch)
    requires ifaceClass != CLASS_HID
    ensures WalkExtra(extra, ifaceClass, fetch) == Ok(0) <==> LengthsPositive(extra)
    ensures !LengthsPositive(extra) ==> WalkExtra(extra, ifaceClass, fetch).Err?
    decreases |extra|
  {
    if |extra| >= 2 && |extra| >= extra[0] && extra[0] > 0 {
      WalkProgresses(extra[extra[0]..], ifaceClass, fetch);
    }
  }

  /** In particular, a descriptor block whose every byte is positive is
      walked to its end. */
  lemma {:induction false} PositiveBytesArePositiveLengths(extra: seq<byte>)
    requires forall i :: 0 <= i < |extra| ==> extra[i] > 0
    ensures LengthsPositive(extra)
    decreases |extra|
  {
    if |extra| >= 2 && |extra| >= extra[0] {
      var rest := extra[extra[0]..];
      assert forall i :: 0 <= i < |rest| ==> rest[i] == extra[extra[0] + i];
      PositiveBytesArePositiveLengths(rest);
    }
  }

  /** The scan fails only on a descriptor that does not cut cleanly into
      items: one whose last item runs past the end. */
  lemma {:induction false} ScanFailsOnlyOnOverrun(buf: seq<byte>, data: nat)
    requires Scan(buf, data).Err?
    ensures Split(buf).None?
    decreases |buf|
  {
    var size := ItemSize(buf[0]);
    if 1 + size <= |buf| {
      var d := if size > 0 then LittleEndian(buf[1..1 + size]) else data;
      ScanFailsOnlyOnOverrun(buf[1 + size..], d);
    }
  }

  /** A Report entry short enough for the 8192-byte buffer: the only kind of
      entry the loop fetches. */
  predicate Fetched(buf: seq<byte>, i: nat)
    requires HidDescriptorOk(buf) && i < buf[5]
  {
    EntryType(buf, i) == DT_REPORT && EntryLength(buf, i) <= REPORT_BUFFER_SIZE
  }

  /** Entries of another type or over 8192 bytes are skipped without a
      fetch: fetch answers that agree on the fetched entries give the same
      result. */
  lemma {:induction false} OnlyFetchedEntriesMatter(buf: seq<byte>, i: nat, f: nat -> Fetch, g: nat -> Fetch)
    requires HidDescriptorOk(buf)
    requires forall k :: i <= k < buf[5] && Fetched(buf, k) ==> f(k) == g(k)
    ensures ReportEntries(buf, i, f) == ReportEntries(buf, i, g)
    decreases buf[5] - i
  {
    if i < buf[5] {
      OnlyFetchedEntriesMatter(buf, i + 1, f, g);
    }
  }

  /** The first fetched entry whose interface is claimed decides the result:
      a failed open or control transfer gives 0, and transferred bytes are
      parsed. Entries before it whose claim failed are passed over. */
  lemma {:induction false} FirstClaimDecides(buf: seq<byte>, i: nat, f: nat -> Fetch, k: nat)
    requires HidDescriptorOk(buf) && i <= k < buf[5] && Fetched(buf, k) && !f(k).ClaimFailed?
    requires forall j :: i <= j < k && Fetched(buf, j) ==> f(j).ClaimFailed?
    ensures f(k).OpenFailed? || f(k).ControlFailed? ==> ReportEntries(buf, i, f) == Ok(0)
    ensures f(k).Transferred? && |f(k).data| == 0 ==> ReportEntries(buf, i, f) == Ok(0)
    ensures f(k).Transferred? && |f(k).data| > 0 ==> ReportEntries(buf, i, f) == Scan(f(k).data, DATA_UNSET)
    decreases k - i
  {
    if i < k {
      FirstClaimDecides(buf, i + 1, f, k);
    }
  }

  /** When no fetched entry's interface can be claimed, the answer is 0. */
  lemma {:induction false} NoClaimGivesZero(buf: seq<byte>, i: nat, f: nat -> Fetch)
    requires HidDescriptorOk(buf)
    requires forall k :: i <= k < buf[5] && Fetched(buf, k) ==> f(k).ClaimFailed?
    ensures ReportEntries(buf, i, f) == Ok(0)
    decreases buf[5] - i
  {
    if i < buf[5] {
      NoClaimGivesZero(buf, i + 1, f);
    }
  }
}
