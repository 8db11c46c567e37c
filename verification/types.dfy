/**
 * The message shared by the display and the USB transport: which monitor,
 * which border, and where along it, with the field widths of the C++
 * `mouse_pos_t` and the numeric border encoding of `border_t`.
 */
module Types {
  import opened Common

  /** `border_t`: the wire encoding of the four edges and the hide command. */
  const TOP: byte := 0
  const BOTTOM: byte := 1
  const LEFT: byte := 2
  const RIGHT: byte := 3
  const HIDE: byte := 4

  /** Fractions are expressed in units of 1/65536 of an edge. */
  const RESOLUTION: int := 0x1_0000

  /** `mouse_pos_t`: an 8-bit screen id, an 8-bit border code (a plain byte,
      so values above HIDE are representable) and a 16-bit fraction. */
  datatype MousePos = MousePos(screen: byte, border: byte, pos: u16)

  /** How a receiver reads a border byte. */
  datatype Edge = Top | Bottom | Left | Right
  datatype BorderKind = EdgeOf(edge: Edge) | Hidden | Centre

  function EdgeCode(e: Edge): (b: byte)
    ensures b < HIDE
  {
    match e
    case Top => TOP
    case Bottom => BOTTOM
    case Left => LEFT
    case Right => RIGHT
  }

  /** Classifies a border byte: codes 0..3 are the edges, 4 hides the
      pointer, and every other byte (5..255) means "centre". */
  function Classify(b: byte): (k: BorderKind)
    ensures k.EdgeOf? <==> b < HIDE
    ensures k.EdgeOf? ==> EdgeCode(k.edge) == b
    ensures k.Hidden? <==> b == HIDE
    ensures k.Centre? <==> b > HIDE
  {
    if b == TOP then EdgeOf(Top)
    else if b == BOTTOM then EdgeOf(Bottom)
    else if b == LEFT then EdgeOf(Left)
    else if b == RIGHT then EdgeOf(Right)
    else if b == HIDE then Hidden
    else Centre
  }

  /** Classification inverts the encoding of the four edges. */
  lemma ClassifyEdgeCode(e: Edge)
    ensures Classify(EdgeCode(e)) == EdgeOf(e)
  {
  }
}
