/** The fixed LED layout of the bezel strip and its serial framing text.

    The strip is a single chain addressed counter-clockwise. It starts at the
    bottom-right corner, runs along the bottom to the right edge, up the
    right edge, leftwards along the top, down the left edge, and ends along the
    bottom-left run.
*/
module LedLayout {

  const LedsBottomRight: nat := 6
  const LedsRight: nat := 19
  const LedsTop: nat := 35
  const LedsLeft: nat := 19
  const LedsBottomLeft: nat := 6

  const LedsTotal: nat := LedsBottomRight + LedsRight + LedsTop + LedsLeft + LedsBottomLeft

  /** Framing text: a frame is |Header|RGBRGB...|Footer|. */
  const SerialDataHeader: string := "WAMB"
  const SerialDataFooter: string := "BMAW"

  /** The five runs of the strip. */
  datatype Zone = BottomRight | Right | Top | Left | BottomLeft

  /** The runs in the order the strip is wired, from S to E. */
  const WiringOrder: seq<Zone> := [BottomRight, Right, Top, Left, BottomLeft]

  /** Number of LEDs on a run. */
  function ZoneLeds(z: Zone): (n: nat)
    ensures n > 0
  {
    match z
    case BottomRight => LedsBottomRight
    case Right => LedsRight
    case Top => LedsTop
    case Left => LedsLeft
    case BottomLeft => LedsBottomLeft
  }

  /** Total number of LEDs on a sequence of runs. */
  function SumLeds(zs: seq<Zone>): nat
  {
    if zs == [] then 0 else SumLeds(zs[..|zs| - 1]) + ZoneLeds(zs[|zs| - 1])
  }

  /** Position of a run in the wiring order. */
  function Position(z: Zone): (p: nat)
    ensures p < |WiringOrder| && WiringOrder[p] == z
  {
    match z
    case BottomRight => 0
    case Right => 1
    case Top => 2
    case Left => 3
    case BottomLeft => 4
  }

  /** Index of the first slot of a run: the LEDs wired before it. */
  function ZoneOffset(z: Zone): nat
  {
    SumLeds(WiringOrder[..Position(z)])
  }

  /** One LED, named by its run and its 0-based position along that run. */
  datatype Slot = Slot(zone: Zone, id: nat)
  {
    predicate Valid() { id < ZoneLeds(zone) }
  }

  /** Index of a slot on the strip, which is also its position in the frame. */
  function SlotIndex(s: Slot): nat
  {
    ZoneOffset(s.zone) + s.id
  }

  /** The slot at a given strip index. */
  function SlotAt(k: nat): (s: Slot)
    requires k < LedsTotal
    ensures s.Valid() && SlotIndex(s) == k
  {
    ZoneOffsets();
    if k < ZoneOffset(Right) then Slot(BottomRight, k)
    else if k < ZoneOffset(Top) then Slot(Right, k - ZoneOffset(Right))
    else if k < ZoneOffset(Left) then Slot(Top, k - ZoneOffset(Top))
    else if k < ZoneOffset(BottomLeft) then Slot(Left, k - ZoneOffset(Left))
    else Slot(BottomLeft, k - ZoneOffset(BottomLeft))
  }

  /** The run offsets, in wiring order, and the total they add up to. */
  lemma ZoneOffsets()
    ensures ZoneOffset(BottomRight) == 0
    ensures ZoneOffset(Right) == LedsBottomRight
    ensures ZoneOffset(Top) == ZoneOffset(Right) + LedsRight
    ensures ZoneOffset(Left) == ZoneOffset(Top) + LedsTop
    ensures ZoneOffset(BottomLeft) == ZoneOffset(Left) + LedsLeft
    ensures LedsTotal == ZoneOffset(BottomLeft) + LedsBottomLeft == SumLeds(WiringOrder)
  {
    var w := WiringOrder;
    assert w[..0] == [];
    assert w[..1][..0] == w[..0];
    assert w[..2][..1] == w[..1];
    assert w[..3][..2] == w[..2];
    assert w[..4][..3] == w[..3];
    assert w[..5][..4] == w[..4];
    assert w[..5] == w;
  }

  /** Strip indices and slots are in one-to-one correspondence. */
  lemma SlotRoundTrip(s: Slot)
    requires s.Valid()
    ensures SlotIndex(s) < LedsTotal
    ensures SlotAt(SlotIndex(s)) == s
  {
    ZoneOffsets();
  }

  /** The total is the sum of the five runs, 85 LEDs. */
  lemma LedsTotalIs85()
    ensures LedsTotal == SumLeds(WiringOrder) == 85
  {
    ZoneOffsets();
  }

  /** The layout is left/right symmetric, which the pitch formulas rely on. */
  lemma LayoutSymmetric()
    ensures LedsLeft == LedsRight
    ensures LedsBottomLeft == LedsBottomRight
  {
  }

  /** Character reversal of a string. */
  function Reverse(s: string): (r: string)
    ensures |r| == |s|
    ensures forall i :: 0 <= i < |s| ==> r[i] == s[|s| - 1 - i]
  {
    if s == [] then [] else [s[|s| - 1]] + Reverse(s[..|s| - 1])
  }

  /** The footer text reads the header text backwards. */
  lemma FooterReversesHeader()
    ensures SerialDataFooter == Reverse(SerialDataHeader)
    ensures Reverse(SerialDataFooter) == SerialDataHeader
  {
    assert Reverse(SerialDataHeader)[..] == SerialDataFooter;
    assert Reverse(SerialDataFooter)[..] == SerialDataHeader;
  }
}
