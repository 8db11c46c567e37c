/**
 * The 64-byte HID report exchanged with the switch. Byte 0 is the report
 * id 0x05, byte 1 the command (0x00 place the pointer, 0x01 crossing,
 * 0x02 positioning done), bytes 2..5 carry screen, border and a
 * little-endian 16-bit fraction, and the rest is zero. Both generations
 * of the daemon (usb.cpp and weyip_usb.c) lay frames out identically.
 */
module Frame {
  import opened Common
  import opened Types

  const FRAME_SIZE: nat := 64
  const REPORT_ID: byte := 0x05
  const CMD_PLACE: byte := 0x00
  const CMD_CROSSING: byte := 0x01
  const CMD_DONE: byte := 0x02

  function Zeros(n: nat): (z: seq<byte>)
    ensures |z| == n
    ensures forall i :: 0 <= i < n ==> z[i] == 0
  {
    seq(n, _ => 0)
  }

  /** A frame: the given leading bytes, then zero padding to 64 bytes. */
  function Pad(head: seq<byte>): (f: seq<byte>)
    requires |head| <= FRAME_SIZE
    ensures |f| == FRAME_SIZE
    ensures f[..|head|] == head
    ensures forall i :: |head| <= i < FRAME_SIZE ==> f[i] == 0
  {
    head + Zeros(FRAME_SIZE - |head|)
  }

  /** Low and high byte of a 16-bit value (`pos & 0xff`, `pos >> 8`). */
  function LowByte(v: u16): byte { v % 0x100 }
  function HighByte(v: u16): byte { v / 0x100 }

  /** `(hi << 8) | lo` for two bytes. */
  function Word(lo: byte, hi: byte): u16 { hi * 0x100 + lo }

  lemma WordSplit(v: u16)
    ensures Word(LowByte(v), HighByte(v)) == v
  {
  }

  lemma SplitWord(lo: byte, hi: byte)
    ensures LowByte(Word(lo, hi)) == lo && HighByte(Word(lo, hi)) == hi
  {
  }

  /** A frame carrying a message under the given command byte. */
  function MessageFrame(cmd: byte, mp: MousePos): (f: seq<byte>)
    ensures |f| == FRAME_SIZE
  {
    Pad([REPORT_ID, cmd, mp.screen, mp.border, LowByte(mp.pos), HighByte(mp.pos)])
  }

  /** The crossing report the host sends (usb.cpp:185-191, weyip_usb.c:260-266). */
  function CrossingFrame(mp: MousePos): (f: seq<byte>)
    ensures |f| == FRAME_SIZE
  {
    MessageFrame(CMD_CROSSING, mp)
  }

  /** The placement command the switch sends. */
  function PlaceFrame(mp: MousePos): (f: seq<byte>)
    ensures |f| == FRAME_SIZE
  {
    MessageFrame(CMD_PLACE, mp)
  }

  /** Positioning done: `05 02` then zeros. */
  function DoneFrame(): (f: seq<byte>)
    ensures |f| == FRAME_SIZE
  {
    Pad([REPORT_ID, CMD_DONE])
  }

  /** Heartbeat: only the report id is set. */
  function HeartbeatFrame(): (f: seq<byte>)
    ensures |f| == FRAME_SIZE
  {
    Pad([REPORT_ID])
  }

  /** Byte layout of the crossing frame: `05 01 screen border lo hi`, then
      zeros up to 64 bytes. */
  lemma CrossingFrameLayout(mp: MousePos)
    ensures var f := CrossingFrame(mp);
      && f[0] == 0x05 && f[1] == 0x01 && f[2] == mp.screen && f[3] == mp.border
      && f[4] == mp.pos % 256 && f[5] == mp.pos / 256
      && forall i :: 6 <= i < 64 ==> f[i] == 0
  {
    var f := CrossingFrame(mp);
    assert f[..6] == [REPORT_ID, CMD_CROSSING, mp.screen, mp.border, LowByte(mp.pos), HighByte(mp.pos)];
    assert f[0] == f[..6][0] && f[1] == f[..6][1] && f[2] == f[..6][2];
    assert f[3] == f[..6][3] && f[4] == f[..6][4] && f[5] == f[..6][5];
  }

  /** Byte layout of the heartbeat and done frames: `05` resp. `05 02`, then
      zeros. */
  lemma ControlFrameLayout()
    ensures HeartbeatFrame()[0] == 0x05
    ensures forall i :: 1 <= i < 64 ==> HeartbeatFrame()[i] == 0
    ensures DoneFrame()[0] == 0x05 && DoneFrame()[1] == 0x02
    ensures forall i :: 2 <= i < 64 ==> DoneFrame()[i] == 0
  {
    var h := HeartbeatFrame();
    assert h[..1] == [REPORT_ID];
    assert h[0] == h[..1][0];
    var d := DoneFrame();
    assert d[..2] == [REPORT_ID, CMD_DONE];
    assert d[0] == d[..2][0] && d[1] == d[..2][1];
  }

  /** Reads screen, border and fraction out of bytes 2..5. */
  function Fields(buf: seq<byte>): (mp: MousePos)
    requires |buf| >= 6
    ensures mp.pos == (buf[5] as int) * 0x100 + (buf[4] as int)
  {
    MousePos(buf[2], buf[3], Word(buf[4], buf[5]))
  }

  /** The receiving side of both daemons: a frame is a placement command
      exactly when it starts `05 00`, and then its bytes 2..5 are the message
      (usb.cpp:135-141, weyip_usb.c:208-217). */
  function DecodePlacement(buf: seq<byte>): (r: Option<MousePos>)
    requires |buf| >= 6
    ensures r.Some? <==> buf[0] == REPORT_ID && buf[1] == CMD_PLACE
    ensures r.Some? ==> r.value.screen == buf[2] && r.value.border == buf[3]
    ensures r.Some? ==> LowByte(r.value.pos) == buf[4] && HighByte(r.value.pos) == buf[5]
  {
    if buf[0] == REPORT_ID && buf[1] == CMD_PLACE then Some(Fields(buf)) else None
  }

  /** The message bytes of a crossing frame decode back to the message:
      bytes 2..5 of the encoder and of the decoder are exact inverses. */
  lemma CrossingFieldsRoundTrip(mp: MousePos)
    ensures Fields(CrossingFrame(mp)) == mp
  {
    var f := CrossingFrame(mp);
    assert f[..6] == [REPORT_ID, CMD_CROSSING, mp.screen, mp.border, LowByte(mp.pos), HighByte(mp.pos)];
    assert f[4] == LowByte(mp.pos) && f[5] == HighByte(mp.pos);
    WordSplit(mp.pos);
  }

  /** A placement frame decodes to exactly the message it was built from. */
  lemma PlaceRoundTrip(mp: MousePos)
    ensures DecodePlacement(PlaceFrame(mp)) == Some(mp)
  {
    var f := PlaceFrame(mp);
    assert f[..6] == [REPORT_ID, CMD_PLACE, mp.screen, mp.border, LowByte(mp.pos), HighByte(mp.pos)];
    assert f[0] == REPORT_ID && f[1] == CMD_PLACE;
    assert f[4] == LowByte(mp.pos) && f[5] == HighByte(mp.pos);
    WordSplit(mp.pos);
  }

  /** Every accepted frame is the placement frame of what it decodes to,
      as far as the first six bytes go: the decoder loses nothing there. */
  lemma DecodeThenEncode(buf: seq<byte>)
    requires |buf| >= 6 && DecodePlacement(buf).Some?
    ensures PlaceFrame(DecodePlacement(buf).value)[..6] == buf[..6]
  {
    var mp := DecodePlacement(buf).value;
    SplitWord(buf[4], buf[5]);
    var f := PlaceFrame(mp);
    assert f[..6] == [REPORT_ID, CMD_PLACE, mp.screen, mp.border, LowByte(mp.pos), HighByte(mp.pos)];
  }

  /** The host's own crossing and done frames
      are never mistaken for placement commands. */
  lemma OutboundFramesAreNotPlacements(mp: MousePos)
    ensures DecodePlacement(CrossingFrame(mp)).None?
    ensures DecodePlacement(DoneFrame()).None?
  {
    var f := CrossingFrame(mp);
    assert f[..6] == [REPORT_ID, CMD_CROSSING, mp.screen, mp.border, LowByte(mp.pos), HighByte(mp.pos)];
    assert f[1] == CMD_CROSSING;
    var d := DoneFrame();
    assert d[..2] == [REPORT_ID, CMD_DONE];
    assert d[1] == CMD_DONE;
  }

  /** The heartbeat frame, by contrast, has command byte 0x00 and so reads as
      a placement at screen 0, border TOP, fraction 0 to any decoder. */
  lemma HeartbeatReadsAsPlacement()
    ensures DecodePlacement(HeartbeatFrame()) == Some(MousePos(0, TOP, 0))
  {
    var h := HeartbeatFrame();
    assert h[..1] == [REPORT_ID];
    assert h[0] == REPORT_ID;
    assert h[1] == 0 && h[2] == 0 && h[3] == 0 && h[4] == 0 && h[5] == 0;
    assert Fields(h) == MousePos(0, TOP, 0);
  }

  /** The worked example `05 00 02 01 00 80`: screen 2, border byte 1
      (BOTTOM in the encoding), fraction 0x8000. */
  lemma DecodeExample()
    ensures DecodePlacement([0x05, 0x00, 0x02, 0x01, 0x00, 0x80])
         == Some(MousePos(2, BOTTOM, 32768))
  {
  }
}
