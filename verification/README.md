# LMSS mouse switching, modelled in Dafny

LMSS lets one mouse roam across the desktops of several computers that are
joined by a WEYTEC keyboard/video/mouse switch. When the pointer reaches
the border of a monitor, the daemon sends the switch a *crossing* message
(screen, border, position along the border in 1/65536 of the border's
length). When the switch moves the pointer back to this computer, it sends a
*placement* message, and the daemon warps the pointer to that spot and
answers with *positioning done*. A *heartbeat* frame tells the switch
that the daemon is alive. Every message is a 64-byte HID output report
with report id 5.

This project models two generations of the daemon:

* The event-driven C++ daemon:
  * `types.dfy` covers the message record.
  * `rect.dfy` covers the border zones.
  * `display.dfy` covers the X11 display context: zone layout, pointer
    placement and event handling.
  * `usb.dfy` covers the usbdevfs transport: device selection, frames,
    dedup and reaping.
  * `file_descriptor.dfy` covers the owning descriptor handle.
  * `lmss.dfy` covers the daemon: construction order, epoll dispatch and
    the heartbeat.
* The polling C prototype:
  * `usb_helper.dfy` covers the HID descriptor parsing and the guarded
    transfers.
  * `weyip_usb.dfy` covers the device registry and the read and send
    routines.
  * `utilities.dfy` covers the merge sort and the compaction of step arrays.
  * `screens.dfy` covers the monitor grid and its neighbour marking.
  * `functions.dfy` covers the border evaluation, the placement and the
    heartbeat.
* `frame.dfy` holds the report layout that both generations share.
* `common.dfy` holds the byte types, `Option`/`Result`, and C's truncating
  division and narrowing casts.

The operating system appears only as parameters, never as calls:
* probe results for device nodes;
* reap answers, X events and timer reads;
* the transfer answers of libusb;
* the XRandR monitor list.

Each operation is a pure function or a small method. It returns the new
state together with what it did to the outside world: frames written,
transfers submitted, pointer warps.

Three points of the code are worth stating plainly, because they are easy
to get wrong:

* In `05 00 02 01 …` the border byte 1 is BOTTOM. The enum in
  `src/types.hpp:8-14` gives TOP=0, BOTTOM=1, LEFT=2, RIGHT=3, HIDE=4
  (`Frame.DecodeExample`).
* Neither generation creates pointer barriers, and the C++ `set_mouse_pos`
  (`src/display.cpp:84-125`) has no same-monitor suppression. The C
  prototype suppresses only inner crossings between two monitors right
  after a placement (`Functions.PlacementSuppressesInnerCrossing`). The C++
  daemon deduplicates identical reports (`Usb.DedupIdempotent`).
* The C prototype places the pointer on the top and left edges with no
  inset, and 2 pixels inside on the bottom and right edges. The C++ daemon
  keeps 8 pixels of clearance on every edge.

## Model

| member | source | states |
|---|---|---|
| Types.Classify | src/types.hpp:8-14 | a border byte below 4 names an edge, 4 means hidden, anything above is a centre placement; each kind is characterised in both directions |
| Types.ClassifyEdgeCode | src/types.hpp:8-14 | encoding an edge as its byte and classifying the byte gives the same edge back |
| Rect.CornersInside | src/rect.hpp:9-11 | both the near corner and the far corner `(x + w, y + h)` are inside, so the bounds are inclusive |
| Rect.UnitWidthCoversTwoColumns | src/rect.hpp:9-11 | because the right bound is inclusive, a 1-pixel-wide border zone covers two columns |
| Frame.WordSplit | src/usb.cpp:190-191 | a 16-bit position split into low and high bytes is rebuilt exactly |
| Frame.SplitWord | src/usb.cpp:140 | two bytes joined little-endian and split again give the same two bytes |
| Frame.CrossingFrameLayout | src/usb.cpp:185-191 | a crossing report is 64 bytes: `05 01 screen border lo hi`, then zeros |
| Frame.ControlFrameLayout | src/usb.cpp:155-222 | the done report is `05 02` and the heartbeat `05 00`, each followed by zeros to 64 bytes |
| Frame.DecodePlacement | src/usb.cpp:135-141 | a frame is a placement exactly when it starts `05 00`; its fields are bytes 2 and 3 and the little-endian word of bytes 4 and 5 |
| Frame.CrossingFieldsRoundTrip | src/usb.cpp:185-191 | the fields read back from a crossing frame are the message it was built from |
| Frame.PlaceRoundTrip | src/usb.cpp:135-141 | decoding a placement frame gives back the message encoded in it |
| Frame.DecodeThenEncode | src/usb.cpp:135-141 | re-encoding a decoded placement reproduces the frame's first six bytes |
| Frame.OutboundFramesAreNotPlacements | src/usb.cpp:135 | crossing and done frames are never mistaken for placements |
| Frame.HeartbeatReadsAsPlacement | src/usb.cpp:157-158 | the heartbeat shares the placement prefix `05 00` and decodes as placing screen 0 on TOP at 0 |
| Frame.DecodeExample | src/usb.cpp:135-141 | the frame `05 00 02 01 00 80` places screen 2 on the BOTTOM border at position 32768 |
| Display.ScreenRects | src/display.cpp:55-65 | each X screen's monitors give four border zones apiece, in monitor order: LEFT, TOP, RIGHT, BOTTOM |
| Display.Construct | src/display.cpp:45-70 | the context holds four zones per monitor and the monitors of all screens in order, and starts not hidden |
| Display.SingleScreenRects | src/display.cpp:62-67 | with one X screen, monitor k is the k-th monitor and its four zones sit at positions 4k to 4k+3 |
| Display.SizeIsSumNotBoundingBox | src/display.cpp:68-69 | two side-by-side monitors give a height that is the sum of their heights, not the desktop's bounding box |
| Display.ConstructSingle | src/display.cpp:45-70 | one monitor on one screen yields exactly its four zones, itself as the only monitor, and its own size |
| Display.SetMousePos | src/display.cpp:84-125 | succeeds exactly when the screen index names a known monitor; HIDE sets the hidden flag and every other border clears it; TOP and BOTTOM place 8 pixels inside that edge at `x + w * pos / 65536`, LEFT and RIGHT 8 pixels inside at `y + h * pos / 65536`; HIDE warps to `(x, y + height)` with the summed height; any other border centres the pointer on the monitor, at `(x + w / 2, y + h / 2)` |
| Display.PlacementFormulas | src/display.cpp:93-121 | the warp target border by border: the scaled position along an edge and 8 pixels in from it, `(x, y + height)` for HIDE, and the monitor's centre, on the monitor, for any other border |
| Display.EdgePlacementClearsItsZone | src/display.cpp:94-109 | a placement on an edge lands on the monitor, 8 pixels in from the edge it names and at the scaled position along it, outside that edge's border zone |
| Display.TopPlacementAtZeroHitsLeftZone | src/display.cpp:94-97 | a TOP placement at fraction 0 lands in the LEFT zone of the same monitor, so the next motion there is reported as a LEFT crossing |
| Common.ScaleAlong | src/display.cpp:95-107 | the truncating scale `pos * extent / 65536` of any 16-bit position lands inside the extent; both generations place along an edge this way (also `src/functions.c:319`) |
| Display.FirstHit | src/display.cpp:162-163 | the zone found is the first in order containing the pointer; none is found only when no zone contains it |
| Display.Fraction | src/display.cpp:164-176 | fails exactly on a zero-length zone or an invalid border; otherwise it is the pointer's offset along the zone scaled to 65536 and wrapped to 16 bits |
| Display.HandleEvent | src/display.cpp:132-182 | a report is produced only for a raw motion event with no button held while not hidden, and it names a zone that contains the pointer |
| Display.EligibleMotionReports | src/display.cpp:132-182 | an eligible motion inside a zone is reported with the first zone's screen tag, its border and the fraction along it; a zone whose fraction fails is fatal; an ineligible event or one outside every zone is skipped, and only those are |
| Display.HandleEvents | src/display.cpp:127-187 | at most one report per event, and none while the pointer is handed over (hidden) |
| Display.HandleEventsCharacterized | src/display.cpp:127-187 | a batch succeeds exactly when no event on its own is fatal, and then yields the reports of its events in event order; otherwise it fails with the first fatal event's cause |
| Display.BatchOkWithoutFatal | src/display.cpp:127-187 | a batch succeeds exactly when no event is fatal |
| Display.BatchForwardsReports | src/display.cpp:127-187 | a successful batch is the per-event reports in order |
| Display.BatchFailsOnFirstFatal | src/display.cpp:127-187 | a failing batch carries the cause of its first fatal event |
| Display.ReportFromFirstZone | src/display.cpp:162-182 | a report carries the screen and border of the first zone containing the pointer |
| Display.FarEndWrapsToZero | src/display.cpp:164-168 | the far end of a zone scales to 65536, which the 16-bit field wraps to 0 |
| Display.ScaleRoundTrip | src/display.cpp:168 | an offset inside a zone scales to below 65536, and scaling back gives the offset or the pixel before it |
| Display.TopEdgeReport | src/display.cpp:162-181 | on a lone monitor, a pointer on the top row at least 2 pixels from either corner is reported as TOP with its x offset scaled to 65536 |
| Display.TopLeftCornerReportsLeft | src/display.cpp:62-63 | zones are closed, so the LEFT and TOP zones of a monitor both contain its top-left corner; LEFT is listed first, so a pointer there is reported on LEFT at fraction 0 |
| Display.TopPlacement | src/display.cpp:94-97 | placing on TOP puts the pointer 8 pixels below the top edge at the scaled x position |
| Display.TopEdgeRoundTrip | src/display.cpp:94-97 | placing on TOP at the reported position of a top-edge pointer returns it to its column or the one before, 8 pixels down |
| Usb.SelectNode | src/usb.cpp:22-72 | after any run of unopenable nodes and other devices, the next node decides: a WEYTEC switch is selected at exactly that index, a failed seek, a failed read or a short read aborts with its own message; when every node is passed over the scan fails |
| Usb.ArmRead | src/usb.cpp:172-176 | arming a read appends the next id to the in-flight list, advances the id counter and keeps ids fresh |
| Usb.SendMousePos | src/usb.cpp:178-205 | a report naming the same screen and border as the last one sent changes nothing, whatever its position; any other is remembered and written as a crossing frame followed by a done frame |
| Usb.RemoveId | src/usb.cpp:148-150 | the completed id leaves the in-flight list and every other id stays, in order |
| Usb.Reap | src/usb.cpp:111-153 | EAGAIN ends the drain; a reap error or non-zero status is fatal; a placement on the read endpoint resets the dedup memory, is forwarded and answered with done |
| Usb.Drain | src/usb.cpp:103-104 | draining never grows the in-flight list and keeps ids fresh |
| Usb.HandleEvents | src/usb.cpp:103-109 | after polling, a transport with at most one read in flight has exactly one again |
| Usb.Construct | src/usb.cpp:17-86 | succeeds exactly when a switch is found, claimed and the timer armed; it writes one heartbeat and arms read 0 |
| Usb.DedupIdempotent | src/usb.cpp:179-181 | right after a report was sent, another with the same screen and border writes nothing, even at a different position |
| Usb.DifferentReportIsSent | src/usb.cpp:179-204 | a report that differs in screen or border from the one just sent is written as crossing and done frames |
| Usb.PlacementResetsDedup | src/usb.cpp:135-142 | a completed placement read is forwarded and answered with done, and afterwards any report is written again |
| Usb.CompletionIsReplaced | src/usb.cpp:103-109 | when the single in-flight read completes and the drain ends, exactly one new read, with the next id, is in flight |
| Lmss.AddFd | src/event_loop.cpp:38-49 | registration succeeds exactly for a valid descriptor not yet registered, and maps it to its handler |
| Lmss.Construct | src/lmss.cpp:5-27 | a built daemon had every step succeed, registers exactly the USB timer, X and heartbeat descriptors, and has written one heartbeat and armed one read |
| Lmss.RouteUsbEffects | src/lmss.cpp:39-41 | a transport batch without placements leaves the display untouched and passes its writes and submissions through in order |
| Lmss.SendReports | src/lmss.cpp:43-45 | each display report costs at most a crossing and a done frame, and never touches in-flight reads |
| Lmss.SendReportsForwardsChanges | src/lmss.cpp:43-45 | the frames a batch sends are a crossing frame and a done frame for exactly the reports that change screen or border from the one before (the first against the message last sent), in order; afterwards the message last sent has the last report's screen and border |
| Lmss.SendOneForwards | src/usb.cpp:178-205 | one report yields no frame if it repeats the last screen and border, else its crossing and done frames |
| Lmss.ChangesSeeOnlyTags | src/usb.cpp:178-181 | which reports count as changes depends only on the screen and border last sent |
| Lmss.CrossingFramesAppend | src/lmss.cpp:43-45 | the frames of two batches of changes are the frames of each, concatenated |
| Lmss.HeartbeatTick | src/lmss.cpp:29-37 | the heartbeat fails only on a timer read error other than EAGAIN, and otherwise writes exactly one heartbeat frame |
| Lmss.Dispatch | src/event_loop.cpp:28-34 | an unregistered descriptor is an error; the heartbeat descriptor runs exactly the heartbeat; registrations never change; display events leave the display state and in-flight reads alone |
| Lmss.RegistrationNeedsDistinctFds | src/lmss.cpp:5-27 | when every other step succeeds, construction succeeds exactly when the three descriptors are valid and pairwise distinct |
| Lmss.DistinctFdsRegister | src/lmss.cpp:5-27 | valid, pairwise distinct descriptors all register, so construction succeeds |
| Lmss.CrossingForwarded | src/lmss.cpp:43-45 | two equal border reports in one display batch become one crossing frame and one done frame |
| Lmss.PlacementReachesDisplay | src/lmss.cpp:39-41 | a placement read from the switch warps the pointer to the placement target, answers with done and re-arms the read; the pointer is hidden exactly when the border is HIDE |
| Lmss.UsbPollEffects | src/usb.cpp:103-153 | a poll completing the one read with a placement yields the placement, a done frame and a new read submission, and resets the dedup memory |
| FileDescriptor.Default | src/file_descriptor.hpp:5 | a default handle owns no descriptor |
| FileDescriptor.FromRaw | src/file_descriptor.cpp:6-7 | a handle built from a raw descriptor owns it, and is valid exactly when it is non-negative |
| FileDescriptor.MoveConstruct | src/file_descriptor.hpp:9 | moving hands the descriptor to the new handle and leaves the source empty |
| FileDescriptor.Close | src/file_descriptor.cpp:24-27 | closing calls close on the held value, even the -1 of an empty handle, and leaves the handle empty |
| FileDescriptor.MoveAssign | src/file_descriptor.cpp:15-22 | move-assignment closes the target's old descriptor if it had one, takes the source's and leaves the source invalid |
| FileDescriptor.SelfMoveAssign | src/file_descriptor.cpp:15-22 | a handle moved into itself closes its own descriptor, exactly when it had one, and ends up empty |
| FileDescriptor.Destroy | src/file_descriptor.cpp:9-13 | destruction closes the descriptor exactly when the handle is valid |
| FileDescriptor.MoveThenDestroyClosesOnce | src/file_descriptor.hpp:9 | after a move, destroying both handles closes the descriptor exactly once |
| FileDescriptor.MoveAssignThenDestroyClosesEachOnce | src/file_descriptor.cpp:15-22 | after move-assignment and destruction of both handles, each of the two descriptors is closed exactly once |
| FileDescriptor.CloseThenDestroy | src/file_descriptor.cpp:24-27 | an explicit close followed by destruction closes the descriptor only once |
| UsbHelper.ItemSize | src/usb_helper.c:77-80 | a short item's data size is 0, 1, 2 or 4 bytes, with size code 3 meaning 4 |
| UsbHelper.Scan | src/usb_helper.c:76-103 | the scan answers 0xFF20 or 0; a first item that runs past the buffer is an error |
| UsbHelper.ScanFailsOnlyOnOverrun | src/usb_helper.c:76-103 | the scan fails only on a descriptor whose items do not cut cleanly, that is, one with an item running past the end |
| UsbHelper.UsagePageFromReportDesc | src/usb_helper.c:69-106 | a missing buffer gives 0; otherwise the answer is the scan's, 0xFF20 or 0 |
| UsbHelper.EntryLength | src/usb_helper.c:120 | the descriptor length of an entry is its two length bytes read little-endian |
| UsbHelper.ReportEntries | src/usb_helper.c:117-207 | walking the entries of a HID descriptor answers 0xFF20 or 0 |
| UsbHelper.OnlyFetchedEntriesMatter | src/usb_helper.c:117-127 | entries that are not Report entries, or that are over 8192 bytes, are skipped: fetch answers that agree on the other entries give the same result |
| UsbHelper.FirstClaimDecides | src/usb_helper.c:131-201 | the first fetched entry whose interface is claimed decides: a failed open or control transfer gives 0, and transferred bytes are parsed for the usage page |
| UsbHelper.NoClaimGivesZero | src/usb_helper.c:117-207 | when no fetched entry's interface can be claimed, the walk answers 0 |
| UsbHelper.UsagePageHidDevice | src/usb_helper.c:108-115 | a HID descriptor that is too short or announces more entries than it holds gives 0 |
| UsbHelper.WalkExtra | src/usb_helper.c:230-256 | walking the extra descriptors answers 0xFF20 or 0, and never 0xFF20 for an interface that is not of the HID class |
| UsbHelper.UsagePage | src/usb_helper.c:210-257 | a missing device or interface gives -1 (0xFFFFFFFF as unsigned), no extra descriptors give 0, and a non-HID interface never gives the switch page |
| UsbHelper.ReadHid | src/usb_helper.c:259-293 | a read without handle or buffer, or of 3 bytes or fewer, fails with -1; a transfer of the full length returns 0, any other its libusb result |
| UsbHelper.WriteHid | src/usb_helper.c:322-357 | a write without handle or buffer, or of 5 bytes or fewer, fails with -1; otherwise the transfer's result is returned |
| UsbHelper.ClaimHidDevice | src/usb_helper.c:43-67 | a handle is returned exactly when the device exists, opens and its interface is claimed |
| UsbHelper.LittleEndianTwo | src/usb_helper.c:84-89 | a two-byte item's data is its bytes read little-endian |
| UsbHelper.SwitchPageFound | src/usb_helper.c:96-100 | a usage-page item carrying 0xFF20 stops the scan with 0xFF20 |
| UsbHelper.OtherVendorPageSkipped | src/usb_helper.c:95-102 | a usage page other than 0xFF20, such as 0xFF10, is skipped and scanning continues with it as the current data |
| UsbHelper.ZeroSizeItemInheritsData | src/usb_helper.c:84-89 | a usage-page item with no data bytes takes the data of the item before it, so a preceding 0xFF20 announces the switch |
| UsbHelper.SplitSerialize | src/usb_helper.c:76-102 | splitting a serialised list of well-sized items gives the items back |
| UsbHelper.SplitFirst | src/usb_helper.c:76-102 | a non-empty descriptor that cuts is its first item, of the size its prefix announces, followed by the cut of the rest |
| UsbHelper.SerializeFirst | src/usb_helper.c:76-102 | the bytes of a list of items are the first item's prefix and payload followed by the bytes of the rest |
| UsbHelper.SerializeSplit | src/usb_helper.c:76-102 | a descriptor that splits cleanly into items serialises back to itself |
| UsbHelper.ScanCharacterized | src/usb_helper.c:69-106 | the scan answers 0xFF20 exactly when some usage-page item's data, inherited or its own, is 0xFF20 |
| UsbHelper.ReportDescCharacterized | src/usb_helper.c:69-106 | the report-descriptor parse finds the switch page exactly when an item announces it |
| UsbHelper.WalkProgresses | src/usb_helper.c:235-254 | for an interface that is not HID, the walk answers 0 exactly when every length byte it steps on is positive, and fails otherwise |
| UsbHelper.PositiveBytesArePositiveLengths | src/usb_helper.c:235-254 | a descriptor block whose every byte is positive has every length byte the walk steps on positive |
| WeyipUsb.Zeroed | src/weyip_usb.c:45-56 | the static registry starts empty and valid |
| WeyipUsb.Init | src/weyip_usb.c:58-71 | clearing the registry closes every open handle, forgets devices and handles, keeps other fields and resets the count |
| WeyipUsb.SortEndpoints | src/weyip_usb.c:80-84 | the two endpoint addresses come out in ascending order, as a permutation of the input |
| WeyipUsb.Add | src/weyip_usb.c:73-112 | an accepted interface fills the next slot and bumps the count; anything else leaves the registry unchanged |
| WeyipUsb.ReadFrom | src/weyip_usb.c:192-231 | answers 0, -1 or -4; -4 clears the registry and closes every handle, anything else leaves it as it was; 0 exactly when a message is accepted, and each non-NULL out pointer then receives that message's field |
| WeyipUsb.ReadMousePosition | src/weyip_usb.c:178-234 | answers 0, -1 or -4; only -4 changes the registry; an empty registry answers -1 |
| WeyipUsb.SendFrame | src/weyip_usb.c:268-276 | only the first registered device is written to; with no device, or no handle, the send answers -1 |
| WeyipUsb.SendMousePosition | src/weyip_usb.c:259-277 | whatever is written is the crossing frame of the message; nothing written means -1 |
| WeyipUsb.SendPositioningDone | src/weyip_usb.c:279-293 | whatever is written is the done frame; nothing written means -1 |
| WeyipUsb.SendHeartbeat | src/weyip_usb.c:236-257 | whatever is written is the heartbeat frame; a -4 answer clears the registry, any other keeps it |
| WeyipUsb.EndpointOrderIrrelevant | src/weyip_usb.c:80-84 | a switch interface listing its endpoints in either order is registered the same way, OUT first |
| WeyipUsb.SameDirectionRejected | src/weyip_usb.c:87-88 | an interface whose two endpoints point the same way is not registered |
| WeyipUsb.FullRegistryUnchanged | src/weyip_usb.c:92-94 | a registry holding 32 devices accepts no more |
| WeyipUsb.FirstPlacementAccepted | src/weyip_usb.c:192-231 | with devices up to d registered and full-frame reads, the first placement frame in loop order (devices in slot order, two attempts each) is the message accepted |
| WeyipUsb.AcceptedAfterSuccessfulRead | src/weyip_usb.c:208-220 | a message is accepted only after some read on a registered device with a handle returned 0 |
| WeyipUsb.ReadRoundTrip | src/weyip_usb.c:208-220 | a placement frame read first from the first device is accepted as the message it encodes |
| WeyipUsb.NonPlacementsIgnored | src/weyip_usb.c:192-233 | when no frame is a placement and no device is gone, the read answers -1 and changes nothing |
| WeyipUsb.ClearedRegistryRefusesSends | src/weyip_usb.c:243-256 | after a heartbeat finds the device gone, crossing and done sends answer -1 and write nothing |
| Utilities.MergeSort | src/utilities.c:66-73 | sequences of length 0 or 1 are left as they are |
| Utilities.MergePermutes | src/utilities.c:39-64 | merging keeps every element of both halves, counted with multiplicity |
| Utilities.MergeSortPermutes | src/utilities.c:66-73 | sorting is a permutation of its input |
| Utilities.MergeSorted | src/utilities.c:45-57 | merging two sorted halves gives a sorted sequence |
| Utilities.MergeSortSorted | src/utilities.c:66-73 | the merge sort's output is sorted |
| Utilities.MergeWithKey | src/utilities.c:46 | for every key, the merge keeps the left half's elements of that key before the right half's |
| Utilities.MergeSortStable | src/utilities.c:46-51 | the merge sort is stable: elements with equal keys keep their input order |
| Utilities.MergeSortInts | src/utilities.c:66-73 | sorting integers gives the sorted permutation |
| Utilities.MergeRuns | src/utilities.c:39-64 | the array merge with its tail copies computes the functional merge |
| Utilities.MergeHeads | src/utilities.c:45-51 | the head loop advances whichever run's head the merge would take first, preferring the left run on ties |
| Utilities.MergeSortInPlace | src/utilities.c:66-73 | the recursive array sort yields the functional merge sort, which is sorted and a permutation |
| Utilities.Dedup | src/utilities.c:82-89 | run removal keeps the first element and the last |
| Utilities.Compact | src/utilities.c:75-95 | short input is returned unchanged; otherwise the prefix before the count is the run-free sequence and the rest is 0xFFFF |
| Utilities.CompactRuns | src/utilities.c:82-89 | the in-place loop leaves the run-free sequence at the front of the array |
| Utilities.PadFill | src/utilities.c:90-92 | the fill keeps the prefix and sets every later slot to 0xFFFF |
| Utilities.DedupOfSorted | src/utilities.c:82-88 | removing runs from a sorted sequence gives a strictly increasing one |
| Utilities.DedupBounded | src/utilities.c:82-88 | every value kept by run removal comes from the input |
| Utilities.DedupComplete | src/utilities.c:82-88 | every value of the input is kept by run removal |
| Utilities.DedupNoRepeats | src/utilities.c:82-88 | no two neighbours in the output are equal |
| Utilities.SortAndCompact | src/screens.c:120-124 | sorting then compacting gives the distinct values in increasing order, padded with 0xFFFF |
| Screens.MonitorCount | src/screens.c:61 | the monitor count is at most 16, 0 without a reply, and the reply's length when that is below 16 |
| Screens.Highest | src/screens.c:81-82 | the far bound is at least 0, no monitor ends beyond it, and it is 0 or some monitor's end |
| Screens.Lowest | src/screens.c:79-80 | the near bound, computed but never used afterwards, is at most 0 and no monitor starts before it |
| Screens.StepArrayValues | src/screens.c:88-108 | the step array holds exactly each monitor's start and width (not its end), the far bound, and zeros |
| Screens.Cuts | src/screens.c:88-124 | the cuts are the step values sorted and without repeats, padded with 0xFFFF, with their count |
| Screens.Owner | src/screens.c:149-152 | a cell belongs to the last listed monitor covering its corner, or to none when no monitor covers it |
| Screens.FillCovers | src/screens.c:147-172 | a filled cell names the owning monitor with its sides set, and a cell no monitor covers stays blank |
| Screens.MarkKeepsSigns | src/screens.c:177-191 | marking changes a side only from "present" to "next to another monitor", never from empty to present |
| Screens.VisitMarks | src/screens.c:177-191 | the row-major loop, at each cell, computes that cell's marking from the unmarked grid |
| Screens.MarkNeighbours | src/screens.c:175-193 | the in-place marking loop gives the grid in which every cell's sides are marked against its neighbours |
| Screens.FillSidesAgree | src/screens.c:165-168 | a filled cell has all four sides set or none |
| Screens.MarkedSides | src/screens.c:175-193 | after marking, a side of an occupied cell is 200 exactly when the neighbour in that direction is occupied, and 255 otherwise |
| Screens.Bands | src/screens.c:196-206 | each used band runs from one cut to the next with its index as ordinal; unused bands are zero |
| Screens.Build | src/screens.c:48-210 | the grid is built exactly when fewer than 8 monitors are counted, and holds the marked grid, the bands of both axes and the desktop totals |
| Functions.BuiltLayoutValid | src/screens.c:196-206 | a layout built from the cuts satisfies what the border evaluation relies on |
| Functions.Heartbeat | src/functions.c:86-101 | nothing is sent unless a new second began on a configured daemon; with a registered device a done frame and then a heartbeat are written |
| Functions.FindBand | src/functions.c:136-137 | the band found is the first in use whose end lies beyond the coordinate; none is found when no band in use does |
| Functions.Locate | src/functions.c:136-159 | the row comes from the first band below the pointer's y, and the column from the first band beyond its x on that row; unmatched coordinates leave zeros |
| Functions.Scale | src/functions.c:182 | the scaling fails exactly on a zero divisor and maps a coordinate inside its band below 65536 |
| Functions.FractionBound | src/functions.c:182 | 65536 times an offset inside a band, divided by the band's width, is below 65536 |
| Functions.Classify | src/functions.c:174-269 | a crossing names a border 1 to 4, the current monitor after a placement, and a position below 65536 inside the band |
| Functions.OuterTopEdgeHit | src/functions.c:174-183 | on the first line of a cell whose top is the desktop edge, the crossing is TOP on the cell's monitor at `65536 * (x - start) / width` of the column band |
| Functions.OuterBottomEdgeHit | src/functions.c:174-207 | on the last line of a cell whose bottom is the desktop edge (except x = 0 and the (1, total_h - 1) spot), with no top test firing, the crossing is BOTTOM on the cell's monitor at the scaled column position |
| Functions.OuterLeftEdgeHit | src/functions.c:174-230 | on the first column of a cell whose left side is the desktop edge, off the last desktop line and with no vertical test firing, the crossing is LEFT on the cell's monitor at the scaled row position |
| Functions.OuterRightEdgeHit | src/functions.c:174-254 | on the last column of a cell whose right side is the desktop edge, with no earlier test firing, the crossing is RIGHT on the cell's monitor at the scaled row position |
| Functions.InnerTopHit | src/functions.c:174-194 | moving up from another monitor's cell in the same column, outside a placement, the crossing is TOP on the monitor left behind |
| Functions.MouseAtBorderEval | src/functions.c:103-300 | nothing happens while unconfigured or with a button held; a crossing is sent at most once until cleared, with border 0 to 3, written as a crossing frame |
| Functions.CrossingIsSent | src/functions.c:174-295 | with no crossing outstanding, every crossing found is sent as border `data - 1`, the monitor found and the scaled position; the evaluation fails exactly when a test divides by zero |
| Functions.SetMouseOnMessage | src/functions.c:302-383 | a placement read with no message pending warps, suppresses inner crossings, marks the message received and answers with done; otherwise nothing changes |
| Functions.AcceptedPlacementWarps | src/functions.c:302-383 | with no message pending, a successful read naming a counted monitor warps the pointer from where it was last seen onto the target, suppresses inner crossings, records the new pointer and writes the done frame |
| Functions.WarpReachesTarget | src/functions.c:313-365 | the warp moves the pointer to the target computed from the message read |
| Functions.EdgeTargetOnMonitor | src/functions.c:316-344 | an edge placement lands on the named monitor, on its top or left edge or 2 pixels inside its bottom or right edge |
| Functions.HideLeavesDesktop | src/functions.c:345-349 | a HIDE placement puts the pointer left of the desktop and below its bottom |
| Functions.OtherBordersCentre | src/functions.c:350-354 | a border byte above 4 centres the pointer on the desktop |
| Functions.PlacementSuppressesInnerCrossing | src/functions.c:357 | right after a placement, any crossing found names the monitor of the pointer's own cell, never a neighbour across an inner border |
| Functions.LocateInGrid | src/functions.c:136-159 | the row and column found always index into the 16 by 16 grid |
| Functions.SendOnce | src/functions.c:286-295 | after a crossing was sent successfully, the next evaluation sends nothing |
| Functions.NoCrossingClearsFlag | src/functions.c:267-269 | an evaluation that finds the pointer on no border clears the sent flag and sends nothing |

## Left out

* Each operating-system call is a parameter supplied by the caller: X11
  (XInput2 events, XRandR, XWarpPointer, XQueryPointer), libusb, usbdevfs
  ioctls, epoll and timerfd. The model uses the answers those calls return,
  not the calls.
* Timers and clocks are left out: `update_ctx_now` (src/functions.c:46-54)
  and the poll and heartbeat intervals. The time "a new second began" is an
  input. The C++ transport arms its poll timer at 10 microseconds as
  written; that value is never used.
* Logging is left out because it has no effect on behaviour.
* The prototype's `check_usb` reconnection loop (src/functions.c:56-84) and
  `enumerate_weyip_usb` (src/weyip_usb.c:114-176) are left out. They walk
  libusb's device lists. The model covers the per-interface decision they
  make (`WeyipUsb.Add`, `UsbHelper.UsagePage`).
* `usb_HidCtrlEvaluate` (src/usb_helper.c:361-535) is a debugging dump of
  descriptors and is left out.
* The C++ transport's directory scan and driver detach are reduced to one
  probe answer per device node (`Usb.NodeProbe`).
* The programs' `main` functions, argument parsing and signal handling are
  not part of this model.
* 32-bit `int` overflow is not modelled; integers are unbounded here.
  Both generations multiply in `int`. In the prototype these are
  `65536 * (x - start)` in the border evaluation and `position * width`
  in the placement. In the daemon they are `RESOLUTION * (root_x - b.x)`
  and `RESOLUTION * (root_y - b.y)` (`src/display.cpp:168`, `:172`) and
  `w * mp.pos` and `h * mp.pos` (`src/display.cpp:95-108`). Each
  overflows once the offset or extent reaches 32768 pixels.
* `Display.ScaleRoundTrip`: requires only `w <= 65536`. This includes
  zones 32768 pixels or wider, where the C++ product
  `RESOLUTION * (root_x - b.x)` overflows. The lemma states the
  unbounded-integer result there.
* `Usb.SendMousePos`: the C++ daemon throws when a write fails. The model
  assumes that every write succeeds.
* `Usb.ArmRead`: a failed `USBDEVFS_SUBMITURB` throws (`src/usb.cpp:97-99`)
  after the transfer was appended and the id advanced. The model assumes
  that submission succeeds.
* `Display.HandleEvents`: a fatal zone ends the batch with an error and
  drops the reports of earlier events in it. The C++ code has already
  forwarded those reports before it divides by zero.
* `WeyipUsb.FirstPlacementAccepted`: assumes that every earlier read on a
  device with a handle moved a full 64-byte frame. A short read leaves
  older bytes in the shared buffer; that case is covered only by the
  contract of `WeyipUsb.ReadFrom`.
* `Display.SetMousePos`: the C++ code indexes the monitor list without a
  bounds check. The model turns an out-of-range screen into an error
  rather than undefined behaviour.
* `Usb.Drain`: a fatal reap, or a failed placement, ends the drain with a
  bare error. Placements reaped earlier in the same drain are then dropped,
  together with their warps and done frames, although `src/usb.cpp:135-142`
  has already performed them before the later throw. The same holds for
  `Lmss.RouteUsbEffects` and `Lmss.Dispatch`, which pass the error on.
* `Functions.Scale`: a zero divisor makes the prototype's integer division
  (`src/functions.c:182`) crash. The model reports it as an error.
* `Display.Fraction`: a zone of zero length would divide by zero in the
  C++ code. The model reports it as a fatal error.
* `Screens.Build`: with 8 or more monitors the prototype writes past its
  16-entry step arrays. The model refuses such layouts with an error.
* `Functions.FindBand`: the band loop reads `screen_h[16]` before it checks
  the index. The model stops at 16.
* `UsbHelper.Scan`: an item that runs past the end of the buffer reads
  out of bounds in C. The model reports an error.
* `UsbHelper.WalkExtra`: a zero-length descriptor makes the C walk loop
  forever. The model reports an error.
* The prototype's global context is modelled as zero-initialised. The
  grid is built once, at start-up (`src/main.c:116`); the prototype never
  rebuilds it when the monitors change, and neither does the model.
* Deleting the copy operations of `file_descriptor` and the accessor
  `get_raw` (src/file_descriptor.hpp:16-20) adds no behaviour.
