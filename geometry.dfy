/** The border partition: the pixel pitches and the sampling window of every
    LED slot, for an image of width x height pixels and a band of depth pixels. */
module Geometry {
  import opened LedLayout

  /** A rectangle of pixels, as the averaging step receives it:
      rows [rowStart, rowStart + rowCount), columns [colStart, colStart + colCount). */
  datatype Window = Window(rowStart: nat, rowCount: nat, colStart: nat, colCount: nat)

  /** Whether pixel (row, col) lies inside the window. */
  predicate Contains(w: Window, row: nat, col: nat)
  {
    w.rowStart <= row < w.rowStart + w.rowCount && w.colStart <= col < w.colStart + w.colCount
  }

  /** Every pixel of the window lies inside a width x height image. */
  predicate InBounds(w: Window, width: nat, height: nat)
  {
    w.rowStart + w.rowCount <= height && w.colStart + w.colCount <= width
  }

  /** Number of pixels in the window. */
  function Area(w: Window): nat
  {
    w.rowCount * w.colCount
  }

  /** Two windows share at least one pixel. */
  ghost predicate Overlap(a: Window, b: Window)
  {
    exists row: nat, col: nat :: Contains(a, row, col) && Contains(b, row, col)
  }

  /** Width of one LED's window on the top and bottom runs: one pitch per top LED
      plus one pitch of margin at each end, LedsTop + 2 pitches in all, fill
      as much of the width as whole pixels allow. */
  function HorizontalPixelsPerLed(width: nat): (p: nat)
    ensures (LedsTop + 2) * p <= width < (LedsTop + 2) * (p + 1)
  {
    width / (LedsTop + 2)
  }

  /** Height of one LED's window on the left and right runs: LedsLeft + 2
      pitches fill as much of the height as whole pixels allow. */
  function VerticalPixelsPerLed(height: nat): (p: nat)
    ensures (LedsLeft + 2) * p <= height < (LedsLeft + 2) * (p + 1)
  {
    height / (LedsLeft + 2)
  }

  /** The band of depth pixels fits inside the image in both directions. */
  predicate DepthFits(width: nat, height: nat, depth: nat)
  {
    depth <= width && depth <= height
  }

  /** Multiplication is monotone in its second factor. Stride and PitchStep
      are the forms of this fact that the window proofs call. */
  lemma MulMono(a: nat, b: nat, c: nat)
    requires b <= c
    ensures a * b <= a * c
  {
  }

  /** k pitches of size p, for 1 <= k <= n, fit wherever n of them fit, and
      k - 1 of them leave room for one more. A resource helper: MulMono in
      the exact terms ZoneWindow's subtractions need. */
  lemma Stride(p: nat, k: nat, n: nat, extent: nat)
    requires 1 <= k <= n && n * p <= extent
    ensures p <= p * k <= extent && k * p == p * k
    ensures (k - 1) * p + p == p * k
  {
    MulMono(p, k, n);
    MulMono(p, 1, k);
  }

  /** The sampling window of LED id of run z. Every subtraction is on naturals,
      so the window coordinates never wrap around. */
  function ZoneWindow(z: Zone, id: nat, width: nat, height: nat, depth: nat): (w: Window)
    requires id < ZoneLeds(z) && DepthFits(width, height, depth)
    ensures InBounds(w, width, height)
    ensures z == BottomRight || z == Top || z == BottomLeft ==>
              w.rowCount == depth && w.colCount == HorizontalPixelsPerLed(width)
    ensures z == Right || z == Left ==>
              w.rowCount == VerticalPixelsPerLed(height) && w.colCount == depth
  {
    var hp := HorizontalPixelsPerLed(width);
    var vp := VerticalPixelsPerLed(height);
    match z
    case BottomRight =>
      Stride(hp, LedsBottomRight + 1 - id, LedsTop + 2, width);
      Window(height - depth, depth, width - hp * (LedsBottomRight + 1 - id), hp)
    case Right =>
      Stride(vp, 2 + id, LedsLeft + 2, height);
      Window(height - vp * (2 + id), vp, width - depth, depth)
    case Top =>
      Stride(hp, 2 + id, LedsTop + 2, width);
      Window(0, depth, width - hp * (2 + id), hp)
    case Left =>
      Stride(vp, id + 2, LedsLeft + 2, height);
      Window((id + 1) * vp, vp, 0, depth)
    case BottomLeft =>
      Stride(hp, id + 2, LedsTop + 2, width);
      Window(height - depth, depth, (id + 1) * hp, hp)
  }

  /** The windows of one run, in the order its loop visits them. */
  function ZoneWindows(z: Zone, width: nat, height: nat, depth: nat): (ws: seq<Window>)
    requires DepthFits(width, height, depth)
    ensures |ws| == ZoneLeds(z)
  {
    seq(ZoneLeds(z), id requires 0 <= id < ZoneLeds(z) => ZoneWindow(z, id, width, height, depth))
  }

  /** All sampling windows in wiring order: this order is the order of the
      colour triples in the frame. */
  function Partition(width: nat, height: nat, depth: nat): (ws: seq<Window>)
    requires DepthFits(width, height, depth)
    ensures |ws| == LedsTotal
    ensures forall k :: 0 <= k < |ws| ==> InBounds(ws[k], width, height)
  {
    ZoneOffsets();
    ZoneWindows(BottomRight, width, height, depth)
    + ZoneWindows(Right, width, height, depth)
    + ZoneWindows(Top, width, height, depth)
    + ZoneWindows(Left, width, height, depth)
    + ZoneWindows(BottomLeft, width, height, depth)
  }

  /** Slot s sits at index SlotIndex(s) of the partition, with its run's window. */
  lemma PartitionAt(s: Slot, width: nat, height: nat, depth: nat)
    requires s.Valid() && DepthFits(width, height, depth)
    ensures SlotIndex(s) < LedsTotal
    ensures Partition(width, height, depth)[SlotIndex(s)] == ZoneWindow(s.zone, s.id, width, height, depth)
  {
    ZoneOffsets();
    var br := ZoneWindows(BottomRight, width, height, depth);
    var r := ZoneWindows(Right, width, height, depth);
    var t := ZoneWindows(Top, width, height, depth);
    var l := ZoneWindows(Left, width, height, depth);
    var bl := ZoneWindows(BottomLeft, width, height, depth);
    var ws := Partition(width, height, depth);
    assert ws == br + r + t + l + bl;
    match s.zone
    case BottomRight => assert ws[s.id] == br[s.id];
    case Right => assert ws[LedsBottomRight + s.id] == r[s.id];
    case Top => assert ws[ZoneOffset(Top) + s.id] == t[s.id];
    case Left => assert ws[ZoneOffset(Left) + s.id] == l[s.id];
    case BottomLeft => assert ws[ZoneOffset(BottomLeft) + s.id] == bl[s.id];
  }

  /** One pitch further along: a pitches and one more fit in b pitches.
      A resource helper: MulMono in the terms the direction lemmas need. */
  lemma PitchStep(p: nat, a: nat, b: nat)
    requires a < b
    ensures p * a + p <= p * b
  {
    MulMono(p, a + 1, b);
  }

  /** Window b comes after window a along run z, in the direction the strip
      runs there: the bottom runs left to right, the right run bottom to top,
      the top run right to left and the left run top to bottom. */
  predicate Follows(z: Zone, a: Window, b: Window)
  {
    match z
    case BottomRight => a.colStart + a.colCount <= b.colStart
    case Right => b.rowStart + b.rowCount <= a.rowStart
    case Top => b.colStart + b.colCount <= a.colStart
    case Left => a.rowStart + a.rowCount <= b.rowStart
    case BottomLeft => a.colStart + a.colCount <= b.colStart
  }

  /** Each loop walks its run in the strip's direction, and windows of the
      same run never share a pixel. */
  lemma RunDirection(z: Zone, i: nat, j: nat, width: nat, height: nat, depth: nat)
    requires i < j < ZoneLeds(z) && DepthFits(width, height, depth)
    ensures Follows(z, ZoneWindow(z, i, width, height, depth), ZoneWindow(z, j, width, height, depth))
  {
    var hp := HorizontalPixelsPerLed(width);
    var vp := VerticalPixelsPerLed(height);
    match z
    case BottomRight => BottomRightDirection(i, j, width, height, depth);
    case Right => RightDirection(i, j, width, height, depth);
    case Top => TopDirection(i, j, width, height, depth);
    case Left => LeftDirection(i, j, width, height, depth);
    case BottomLeft => BottomLeftDirection(i, j, width, height, depth);
  }

  lemma BottomRightDirection(i: nat, j: nat, width: nat, height: nat, depth: nat)
    requires i < j < ZoneLeds(BottomRight) && DepthFits(width, height, depth)
    ensures Follows(BottomRight, ZoneWindow(BottomRight, i, width, height, depth), ZoneWindow(BottomRight, j, width, height, depth))
  {
    PitchStep(HorizontalPixelsPerLed(width), LedsBottomRight + 1 - j, LedsBottomRight + 1 - i);
  }

  lemma RightDirection(i: nat, j: nat, width: nat, height: nat, depth: nat)
    requires i < j < ZoneLeds(Right) && DepthFits(width, height, depth)
    ensures Follows(Right, ZoneWindow(Right, i, width, height, depth), ZoneWindow(Right, j, width, height, depth))
  {
    PitchStep(VerticalPixelsPerLed(height), 2 + i, 2 + j);
  }

  lemma TopDirection(i: nat, j: nat, width: nat, height: nat, depth: nat)
    requires i < j < ZoneLeds(Top) && DepthFits(width, height, depth)
    ensures Follows(Top, ZoneWindow(Top, i, width, height, depth), ZoneWindow(Top, j, width, height, depth))
  {
    PitchStep(HorizontalPixelsPerLed(width), 2 + i, 2 + j);
  }

  lemma LeftDirection(i: nat, j: nat, width: nat, height: nat, depth: nat)
    requires i < j < ZoneLeds(Left) && DepthFits(width, height, depth)
    ensures Follows(Left, ZoneWindow(Left, i, width, height, depth), ZoneWindow(Left, j, width, height, depth))
  {
    PitchStep(VerticalPixelsPerLed(height), i + 1, j + 1);
  }

  lemma BottomLeftDirection(i: nat, j: nat, width: nat, height: nat, depth: nat)
    requires i < j < ZoneLeds(BottomLeft) && DepthFits(width, height, depth)
    ensures Follows(BottomLeft, ZoneWindow(BottomLeft, i, width, height, depth), ZoneWindow(BottomLeft, j, width, height, depth))
  {
    PitchStep(HorizontalPixelsPerLed(width), i + 1, j + 1);
  }

  /** Two different LEDs of one run never share a pixel, for any band that
      fits the image: the run's windows follow one another along its edge. */
  lemma RunWindowsDisjoint(z: Zone, i: nat, j: nat, width: nat, height: nat, depth: nat)
    requires i < ZoneLeds(z) && j < ZoneLeds(z) && i != j && DepthFits(width, height, depth)
    ensures !Overlap(ZoneWindow(z, i, width, height, depth), ZoneWindow(z, j, width, height, depth))
  {
    var a := ZoneWindow(z, i, width, height, depth);
    var b := ZoneWindow(z, j, width, height, depth);
    if i < j {
      RunDirection(z, i, j, width, height, depth);
    } else {
      RunDirection(z, j, i, width, height, depth);
    }
    assert Separated(a, b);
    SeparatedApart(a, b);
  }

  /** The two windows are apart along the rows or along the columns. */
  predicate Separated(a: Window, b: Window)
  {
    a.rowStart + a.rowCount <= b.rowStart || b.rowStart + b.rowCount <= a.rowStart
    || a.colStart + a.colCount <= b.colStart || b.colStart + b.colCount <= a.colStart
  }

  /** Window a lies inside window box. */
  predicate Inside(a: Window, box: Window)
  {
    box.rowStart <= a.rowStart && a.rowStart + a.rowCount <= box.rowStart + box.rowCount
    && box.colStart <= a.colStart && a.colStart + a.colCount <= box.colStart + box.colCount
  }

  /** Separated windows share no pixel. */
  lemma SeparatedApart(a: Window, b: Window)
    requires Separated(a, b)
    ensures !Overlap(a, b)
  {
    forall row: nat, col: nat ensures !(Contains(a, row, col) && Contains(b, row, col)) {
    }
  }

  /** Windows inside separated boxes are separated. */
  lemma InsideSeparated(a: Window, b: Window, boxA: Window, boxB: Window)
    requires Inside(a, boxA) && Inside(b, boxB) && Separated(boxA, boxB)
    ensures Separated(a, b)
  {
  }

  /** The strip of the border that run z samples: the union of its windows'
      rows and columns. */
  function RunBox(z: Zone, width: nat, height: nat, depth: nat): (box: Window)
    requires DepthFits(width, height, depth)
    ensures InBounds(box, width, height)
  {
    var hp := HorizontalPixelsPerLed(width);
    var vp := VerticalPixelsPerLed(height);
    match z
    case BottomRight => Window(height - depth, depth, width - (LedsBottomRight + 1) * hp, LedsBottomRight * hp)
    case Right => Window(height - (LedsRight + 1) * vp, LedsRight * vp, width - depth, depth)
    case Top => Window(0, depth, width - (LedsTop + 1) * hp, LedsTop * hp)
    case Left => Window(vp, LedsLeft * vp, 0, depth)
    case BottomLeft => Window(height - depth, depth, hp, LedsBottomLeft * hp)
  }

  /** Every window of run z lies inside the run's strip. */
  lemma InsideRunBox(z: Zone, id: nat, width: nat, height: nat, depth: nat)
    requires id < ZoneLeds(z) && DepthFits(width, height, depth)
    ensures Inside(ZoneWindow(z, id, width, height, depth), RunBox(z, width, height, depth))
  {
    match z
    case BottomRight => BottomRightInside(id, width, height, depth);
    case Right => RightInside(id, width, height, depth);
    case Top => TopInside(id, width, height, depth);
    case Left => LeftInside(id, width, height, depth);
    case BottomLeft => BottomLeftInside(id, width, height, depth);
  }

  lemma BottomRightInside(id: nat, width: nat, height: nat, depth: nat)
    requires id < ZoneLeds(BottomRight) && DepthFits(width, height, depth)
    ensures Inside(ZoneWindow(BottomRight, id, width, height, depth), RunBox(BottomRight, width, height, depth))
  {
    var p := HorizontalPixelsPerLed(width);
    MulMono(p, LedsBottomRight + 1 - id, LedsBottomRight + 1);
    MulMono(p, 1, LedsBottomRight + 1 - id);
  }

  lemma RightInside(id: nat, width: nat, height: nat, depth: nat)
    requires id < ZoneLeds(Right) && DepthFits(width, height, depth)
    ensures Inside(ZoneWindow(Right, id, width, height, depth), RunBox(Right, width, height, depth))
  {
    var p := VerticalPixelsPerLed(height);
    MulMono(p, 2 + id, LedsRight + 1);
    MulMono(p, 1, 2 + id);
  }

  lemma TopInside(id: nat, width: nat, height: nat, depth: nat)
    requires id < ZoneLeds(Top) && DepthFits(width, height, depth)
    ensures Inside(ZoneWindow(Top, id, width, height, depth), RunBox(Top, width, height, depth))
  {
    var p := HorizontalPixelsPerLed(width);
    MulMono(p, 2 + id, LedsTop + 1);
    MulMono(p, 1, 2 + id);
  }

  lemma LeftInside(id: nat, width: nat, height: nat, depth: nat)
    requires id < ZoneLeds(Left) && DepthFits(width, height, depth)
    ensures Inside(ZoneWindow(Left, id, width, height, depth), RunBox(Left, width, height, depth))
  {
    var p := VerticalPixelsPerLed(height);
    MulMono(p, id + 1, LedsLeft);
    MulMono(p, 1, id + 1);
  }

  lemma BottomLeftInside(id: nat, width: nat, height: nat, depth: nat)
    requires id < ZoneLeds(BottomLeft) && DepthFits(width, height, depth)
    ensures Inside(ZoneWindow(BottomLeft, id, width, height, depth), RunBox(BottomLeft, width, height, depth))
  {
    var p := HorizontalPixelsPerLed(width);
    MulMono(p, id + 1, LedsBottomLeft);
    MulMono(p, 1, id + 1);
  }

  /** The band is shallow enough that the runs' strips stay apart: it is no
      deeper than the vertical pitch and at most half the width, or no deeper
      than the horizontal pitch and at most half the height. The first case
      holds on 4:3 screens at the program's depth, neither holds on wide
      screens (see WideScreenOverlap). */
  predicate ShallowBand(width: nat, height: nat, depth: nat)
  {
    (depth <= VerticalPixelsPerLed(height) && 2 * depth <= width)
    || (depth <= HorizontalPixelsPerLed(width) && 2 * depth <= height)
  }

  /** With a shallow band, the strips of two different runs are apart. */
  lemma BoxesSeparated(y: Zone, z: Zone, width: nat, height: nat, depth: nat)
    requires y != z && DepthFits(width, height, depth) && ShallowBand(width, height, depth)
    ensures Separated(RunBox(y, width, height, depth), RunBox(z, width, height, depth))
  {
  }

  /** With a shallow band, no two LED slots sample a common pixel. Without
      it the windows of neighbouring runs can meet at a corner
      (CornerOverlap). */
  lemma WindowsDisjoint(s: Slot, t: Slot, width: nat, height: nat, depth: nat)
    requires s.Valid() && t.Valid() && s != t
    requires DepthFits(width, height, depth) && ShallowBand(width, height, depth)
    ensures !Overlap(ZoneWindow(s.zone, s.id, width, height, depth), ZoneWindow(t.zone, t.id, width, height, depth))
  {
    var a := ZoneWindow(s.zone, s.id, width, height, depth);
    var b := ZoneWindow(t.zone, t.id, width, height, depth);
    if s.zone == t.zone {
      RunWindowsDisjoint(s.zone, s.id, t.id, width, height, depth);
    } else {
      InsideRunBox(s.zone, s.id, width, height, depth);
      InsideRunBox(t.zone, t.id, width, height, depth);
      BoxesSeparated(s.zone, t.zone, width, height, depth);
      InsideSeparated(a, b, RunBox(s.zone, width, height, depth), RunBox(t.zone, width, height, depth));
      SeparatedApart(a, b);
    }
  }

  /** When the band is deeper than both pitches and neither pitch is 0, the
      last bottom-right window and the first right window share the pixel
      one pitch above the bottom and one pitch left of the right edge. */
  lemma CornerOverlap(width: nat, height: nat, depth: nat)
    requires DepthFits(width, height, depth)
    requires 1 <= HorizontalPixelsPerLed(width) < depth
    requires 1 <= VerticalPixelsPerLed(height) < depth
    ensures !ShallowBand(width, height, depth)
    ensures Overlap(ZoneWindow(BottomRight, LedsBottomRight - 1, width, height, depth),
                    ZoneWindow(Right, 0, width, height, depth))
  {
    var hp := HorizontalPixelsPerLed(width);
    var vp := VerticalPixelsPerLed(height);
    var row := height - vp - 1;
    var col := width - hp - 1;
    assert Contains(ZoneWindow(BottomRight, LedsBottomRight - 1, width, height, depth), row, col);
    assert Contains(ZoneWindow(Right, 0, width, height, depth), row, col);
  }

  /** The program sets the band to 0.02 * (Width + Height), truncated; with
      the float rounding the band is at least (Width + Height) / 50 - 1. On a
      screen wider than about 29:21 and narrower than about 37:13 (every
      16:9 or 16:10 screen of at least 1280 x 720) that band is deeper than
      both pitches, so the bottom-right corner windows overlap. */
  lemma WideScreenOverlap(width: nat, height: nat, depth: nat)
    requires DepthFits(width, height, depth) && width + height <= 50 * depth + 50
    requires 21 * width > 29 * height + 1050 && 37 * height > 13 * width + 1850
    ensures !ShallowBand(width, height, depth)
    ensures Overlap(ZoneWindow(BottomRight, LedsBottomRight - 1, width, height, depth),
                    ZoneWindow(Right, 0, width, height, depth))
  {
    CornerOverlap(width, height, depth);
  }

  /** A 1024 x 768 screen with the program's band of 35 pixels: the band is
      no deeper than the vertical pitch of 36, so no two slots share a pixel. */
  lemma XgaDisjoint(s: Slot, t: Slot)
    requires s.Valid() && t.Valid() && s != t
    ensures HorizontalPixelsPerLed(1024) == 27 && VerticalPixelsPerLed(768) == 36
    ensures !Overlap(ZoneWindow(s.zone, s.id, 1024, 768, 35), ZoneWindow(t.zone, t.id, 1024, 768, 35))
  {
    WindowsDisjoint(s, t, 1024, 768, 35);
  }

  /** A 1920 x 1080 image with the band of 0.02 * (1920 + 1080) = 60 pixels:
      both pitches are 51 pixels, the first bottom-right window covers
      columns [1563, 1614) of the last 60 rows, and the first right window
      rows [978, 1029) of the last 60 columns. */
  lemma FullHdWindows()
    ensures HorizontalPixelsPerLed(1920) == 51 && VerticalPixelsPerLed(1080) == 51
    ensures ZoneWindow(BottomRight, 0, 1920, 1080, 60) == Window(1020, 60, 1563, 51)
    ensures ZoneWindow(BottomRight, 5, 1920, 1080, 60) == Window(1020, 60, 1818, 51)
    ensures ZoneWindow(Right, 0, 1920, 1080, 60) == Window(978, 51, 1860, 60)
    ensures ZoneWindow(Top, 0, 1920, 1080, 60) == Window(0, 60, 1818, 51)
    ensures ZoneWindow(Left, 0, 1920, 1080, 60) == Window(51, 51, 0, 60)
    ensures ZoneWindow(BottomLeft, 0, 1920, 1080, 60) == Window(1020, 60, 51, 51)
  {
  }

  /** At 1920 x 1080 the band is deeper than a pitch, and the last
      bottom-right window and the first right window both sample pixel
      (1020, 1860): disjointness needs the shallow band. */
  lemma FullHdCornerOverlap()
    ensures !ShallowBand(1920, 1080, 60)
    ensures Overlap(ZoneWindow(BottomRight, 5, 1920, 1080, 60), ZoneWindow(Right, 0, 1920, 1080, 60))
  {
    FullHdWindows();
    assert Contains(ZoneWindow(BottomRight, 5, 1920, 1080, 60), 1020, 1860);
    assert Contains(ZoneWindow(Right, 0, 1920, 1080, 60), 1020, 1860);
  }
}
