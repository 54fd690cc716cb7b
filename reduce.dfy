/** Colour reduction: the pixels of a sampling window and their per-channel
    truncating average. Pixels are 32-bit words holding R in bits 0-7, G in
    bits 8-15 and B in bits 16-23; the top byte is not a colour channel. */
module Reduce {
  import opened LedLayout
  import opened Geometry

  datatype Channel = Red | Green | Blue

  /** An unsigned 8-bit value. */
  type Byte = x: nat | x < 256

  /** One LED colour, one byte per channel. */
  datatype Rgb = Rgb(r: Byte, g: Byte, b: Byte)

  const Black: Rgb := Rgb(0, 0, 0)

  /** Bit position of a channel inside a pixel word. */
  function Shift(ch: Channel): bv32
  {
    match ch
    case Red => 0
    case Green => 8
    case Blue => 16
  }

  /** The bits of one channel of a pixel, moved down to bits 0-7. */
  function ChannelBits(p: bv32, ch: Channel): (v: bv32)
    ensures v <= 0xFF
  {
    (p >> Shift(ch)) & 0xFF
  }

  /** The 8-bit value of one channel of a pixel. */
  function ChannelValue(p: bv32, ch: Channel): (v: nat)
    ensures v < 256
  {
    ChannelBits(p, ch) as nat
  }

  /** The value of a channel of a colour. */
  function Component(c: Rgb, ch: Channel): nat
  {
    match ch
    case Red => c.r
    case Green => c.g
    case Blue => c.b
  }

  /** The colour a pixel word encodes. */
  function PixelColor(p: bv32): Rgb
  {
    Rgb(ChannelValue(p, Red), ChannelValue(p, Green), ChannelValue(p, Blue))
  }

  /** Channel ch of a pixel's colour is that channel's byte of the pixel word.
      An unfolding helper for proofs that range over channels. */
  lemma PixelColorComponent(p: bv32, ch: Channel)
    ensures Component(PixelColor(p), ch) == ChannelValue(p, ch)
  {
    match ch
    case Red =>
    case Green =>
    case Blue =>
  }

  /** The pixel word with red r in bits 0-7, green g in bits 8-15, blue b in
      bits 16-23 and top in bits 24-31. */
  function Pack(r: bv8, g: bv8, b: bv8, top: bv8): bv32
  {
    ((top as bv32) << 24) | ((b as bv32) << 16) | ((g as bv32) << 8) | (r as bv32)
  }

  /** Shifting and masking a packed word gives back each channel's byte. */
  lemma PackBits(r: bv8, g: bv8, b: bv8, top: bv8)
    ensures ChannelBits(Pack(r, g, b, top), Red) == r as bv32
    ensures ChannelBits(Pack(r, g, b, top), Green) == g as bv32
    ensures ChannelBits(Pack(r, g, b, top), Blue) == b as bv32
  {
  }

  /** Reading the colour of a packed word gives back the packed channels,
      whatever the top byte: R sits in bits 0-7, G in bits 8-15, B in bits
      16-23. */
  lemma PackRoundTrip(r: bv8, g: bv8, b: bv8, top: bv8)
    ensures PixelColor(Pack(r, g, b, top)) == Rgb(r as nat, g as nat, b as nat)
  {
    PackBits(r, g, b, top);
  }

  /** Two pixel words with the same low 24 bits. */
  predicate SameColorBits(p: bv32, q: bv32)
  {
    p & 0xFF_FFFF == q & 0xFF_FFFF
  }

  /** Clearing the top byte of a pixel leaves every channel unchanged. */
  lemma MaskKeepsChannel(p: bv32, ch: Channel)
    ensures ChannelBits(p & 0xFF_FFFF, ch) == ChannelBits(p, ch)
  {
    match ch
    case Red =>
      assert (p & 0xFF_FFFF) & 0xFF == p & 0xFF;
    case Green =>
      assert ((p & 0xFF_FFFF) >> 8) & 0xFF == (p >> 8) & 0xFF;
    case Blue =>
      assert ((p & 0xFF_FFFF) >> 16) & 0xFF == (p >> 16) & 0xFF;
  }

  /** The top byte of a pixel never reaches any channel. */
  lemma TopByteIgnored(p: bv32, q: bv32, ch: Channel)
    requires SameColorBits(p, q)
    ensures ChannelValue(p, ch) == ChannelValue(q, ch)
  {
    MaskKeepsChannel(p, ch);
    MaskKeepsChannel(q, ch);
  }

  /** The pixels of a window, row by row and left to right within a row, the
      order in which the nested row/column loops read them. Row r, column c
      is word r * width + c of the image. */
  function WindowPixels(img: seq<bv32>, width: nat, height: nat, w: Window): (ps: seq<bv32>)
    requires |img| == width * height && InBounds(w, width, height)
    decreases w.rowCount
  {
    if w.rowCount == 0 then []
    else
      WindowPixels(img, width, height, w.(rowCount := w.rowCount - 1))
      + RowSegment(img, width, height, w.rowStart + w.rowCount - 1, w.colStart, w.colCount)
  }

  /** The colCount pixels of one image row starting at column colStart. */
  function RowSegment(img: seq<bv32>, width: nat, height: nat, row: nat, colStart: nat, colCount: nat): (seg: seq<bv32>)
    requires |img| == width * height && row < height && colStart + colCount <= width
    ensures |seg| == colCount
  {
    RowSliceInBounds(width, height, row, colStart, colCount);
    img[row * width + colStart .. row * width + colStart + colCount]
  }

  /** A window yields one pixel per cell: rowCount * colCount of them. */
  lemma {:induction false} WindowPixelsLength(img: seq<bv32>, width: nat, height: nat, w: Window)
    requires |img| == width * height && InBounds(w, width, height)
    ensures |WindowPixels(img, width, height, w)| == Area(w)
    decreases w.rowCount
  {
    if w.rowCount > 0 {
      WindowPixelsLength(img, width, height, w.(rowCount := w.rowCount - 1));
      AreaStep(w);
    }
  }

  /** A window has one row's worth of cells more than the same window
      without its last row. */
  lemma AreaStep(w: Window)
    requires w.rowCount > 0
    ensures Area(w) == Area(w.(rowCount := w.rowCount - 1)) + w.colCount
  {
    CountStep(w.rowCount - 1, w.colCount);
  }

  /** A row segment that lies inside the image lies inside the pixel array. */
  lemma RowSliceInBounds(width: nat, height: nat, row: nat, colStart: nat, colCount: nat)
    requires row < height && colStart + colCount <= width
    ensures row * width + colStart + colCount <= width * height
  {
    MulMono(width, row + 1, height);
  }

  /** Sum of one channel over the pixel words s[lo..hi], accumulated in the
      order a column loop visits them. */
  function SliceSum(s: seq<bv32>, lo: nat, hi: nat, ch: Channel): nat
    requires lo <= hi <= |s|
    decreases hi - lo
  {
    if lo == hi then 0 else SliceSum(s, lo, hi - 1, ch) + ChannelValue(s[hi - 1], ch)
  }

  /** Sum of one channel over a sequence of pixels. */
  function ChannelSum(ps: seq<bv32>, ch: Channel): nat
  {
    SliceSum(ps, 0, |ps|, ch)
  }

  /** A slice sum splits at any intermediate index. */
  lemma {:induction false} SliceSumSplit(s: seq<bv32>, lo: nat, mid: nat, hi: nat, ch: Channel)
    requires lo <= mid <= hi <= |s|
    ensures SliceSum(s, lo, hi, ch) == SliceSum(s, lo, mid, ch) + SliceSum(s, mid, hi, ch)
    decreases hi - mid
  {
    if mid < hi {
      SliceSumSplit(s, lo, mid, hi - 1, ch);
    }
  }

  /** The words t[d..e] are the first e - d words of s, so they have the same sum. */
  lemma {:induction false} SliceSumShift(s: seq<bv32>, t: seq<bv32>, d: nat, e: nat, ch: Channel)
    requires d <= e <= |t| && e - d <= |s|
    requires forall i :: 0 <= i < e - d ==> t[d + i] == s[i]
    ensures SliceSum(t, d, e, ch) == SliceSum(s, 0, e - d, ch)
    decreases e - d
  {
    if d < e {
      SliceSumShift(s, t, d, e - 1, ch);
      assert t[e - 1] == s[e - 1 - d];
    }
  }

  /** The first |a| words of a + b sum like a. */
  lemma PrefixSum(a: seq<bv32>, b: seq<bv32>, ch: Channel)
    ensures SliceSum(a + b, 0, |a|, ch) == ChannelSum(a, ch)
  {
    SliceSumShift(a, a + b, 0, |a|, ch);
  }

  /** The words of a + b after the first |a| sum like b. */
  lemma SuffixSum(a: seq<bv32>, b: seq<bv32>, ch: Channel)
    ensures SliceSum(a + b, |a|, |a + b|, ch) == ChannelSum(b, ch)
  {
    SliceSumShift(b, a + b, |a|, |a + b|, ch);
  }

  /** Channel sums add up over a concatenation. */
  lemma ChannelSumAppend(a: seq<bv32>, b: seq<bv32>, ch: Channel)
    ensures ChannelSum(a + b, ch) == ChannelSum(a, ch) + ChannelSum(b, ch)
  {
    SliceSumSplit(a + b, 0, |a|, |a + b|, ch);
    PrefixSum(a, b, ch);
    SuffixSum(a, b, ch);
  }

  /** Summing img[lo..hi] in place is summing the extracted slice. */
  lemma SliceSumIsChannelSum(img: seq<bv32>, lo: nat, hi: nat, ch: Channel)
    requires lo <= hi <= |img|
    ensures SliceSum(img, lo, hi, ch) == ChannelSum(img[lo..hi], ch)
  {
    SliceSumShift(img[lo..hi], img, lo, hi, ch);
  }

  /** Sum of one channel over the first k rows of the window with top row
      rowStart and columns [colStart, colStart + colCount), accumulated in
      the order the row and column loops visit them. */
  function RowsSum(img: seq<bv32>, width: nat, height: nat, rowStart: nat, colStart: nat, colCount: nat, k: nat, ch: Channel): nat
    requires |img| == width * height && rowStart + k <= height && colStart + colCount <= width
  {
    if k == 0 then 0
    else
      var rowOffset := (rowStart + k - 1) * width;
      RowSliceInBounds(width, height, rowStart + k - 1, colStart, colCount);
      RowsSum(img, width, height, rowStart, colStart, colCount, k - 1, ch)
      + SliceSum(img, rowOffset + colStart, rowOffset + colStart + colCount, ch)
  }

  /** Summing k rows is summing the first k - 1 rows, then the pixels of row
      rowStart + k - 1. */
  lemma RowsSumStep(img: seq<bv32>, width: nat, height: nat, rowStart: nat, colStart: nat, colCount: nat, k: nat, ch: Channel)
    requires |img| == width * height && rowStart + k <= height && colStart + colCount <= width && k > 0
    ensures RowsSum(img, width, height, rowStart, colStart, colCount, k, ch)
         == RowsSum(img, width, height, rowStart, colStart, colCount, k - 1, ch)
          + ChannelSum(RowSegment(img, width, height, rowStart + k - 1, colStart, colCount), ch)
  {
    RowSliceInBounds(width, height, rowStart + k - 1, colStart, colCount);
    SliceSumIsChannelSum(img, (rowStart + k - 1) * width + colStart, (rowStart + k - 1) * width + colStart + colCount, ch);
  }

  /** The row-by-row sum is the channel sum over the window's pixels. */
  lemma {:induction false} RowsSumIsChannelSum(img: seq<bv32>, width: nat, height: nat, w: Window, ch: Channel)
    requires |img| == width * height && InBounds(w, width, height)
    ensures RowsSum(img, width, height, w.rowStart, w.colStart, w.colCount, w.rowCount, ch)
         == ChannelSum(WindowPixels(img, width, height, w), ch)
    decreases w.rowCount
  {
    if w.rowCount > 0 {
      var prev := w.(rowCount := w.rowCount - 1);
      var before := WindowPixels(img, width, height, prev);
      var seg := RowSegment(img, width, height, w.rowStart + w.rowCount - 1, w.colStart, w.colCount);
      assert ChannelSum(WindowPixels(img, width, height, w), ch) == ChannelSum(before, ch) + ChannelSum(seg, ch) by {
        ChannelSumAppend(before, seg, ch);
      }
      assert RowsSum(img, width, height, w.rowStart, w.colStart, w.colCount, w.rowCount - 1, ch) == ChannelSum(before, ch) by {
        RowsSumIsChannelSum(img, width, height, prev, ch);
      }
      RowsSumStep(img, width, height, w.rowStart, w.colStart, w.colCount, w.rowCount, ch);
    }
  }

  /** If every pixel's channel lies in [lo, hi], the channel sum over the
      first n pixels lies in [lo * n, hi * n]. */
  lemma {:induction false} SliceSumBetween(ps: seq<bv32>, n: nat, ch: Channel, lo: nat, hi: nat)
    requires n <= |ps|
    requires forall i :: 0 <= i < n ==> lo <= ChannelValue(ps[i], ch) <= hi
    ensures lo * n <= SliceSum(ps, 0, n, ch) <= hi * n
  {
    if n > 0 {
      SliceSumBetween(ps, n - 1, ch, lo, hi);
      CountStep(n - 1, lo);
      CountStep(n - 1, hi);
    }
  }

  /** If every pixel's channel lies in [lo, hi], the channel sum lies in
      [lo * n, hi * n] for n pixels. */
  lemma ChannelSumBetween(ps: seq<bv32>, ch: Channel, lo: nat, hi: nat)
    requires forall i :: 0 <= i < |ps| ==> lo <= ChannelValue(ps[i], ch) <= hi
    ensures lo * |ps| <= ChannelSum(ps, ch) <= hi * |ps|
  {
    SliceSumBetween(ps, |ps|, ch, lo, hi);
  }

  /** One more group of c after k groups makes k + 1 groups. */
  lemma CountStep(k: nat, c: nat)
    ensures (k + 1) * c == k * c + c && c * (k + 1) == c * k + c
  {
  }

  /** The truncated quotient q of sum by n is the q with q * n <= sum < (q + 1) * n. */
  lemma QuotientBounds(sum: nat, n: nat)
    requires n > 0
    ensures (sum / n) * n <= sum < (sum / n + 1) * n
  {
  }

  /** A quotient of a sum bounded by lo * n and hi * n is bounded by lo and hi. */
  lemma DivBetween(sum: nat, n: nat, lo: nat, hi: nat)
    requires n > 0 && lo * n <= sum <= hi * n
    ensures lo <= sum / n <= hi
  {
    var q := sum / n;
    assert q * n <= sum < (q + 1) * n;
    if q > hi {
      MulMono(n, hi + 1, q);
      assert false;
    }
    if q < lo {
      MulMono(n, q + 1, lo);
      assert false;
    }
  }

  /** Truncating mean of one channel over a non-empty sequence of pixels. The
      mean fits in a byte, so storing it in one loses nothing. */
  function Mean(ps: seq<bv32>, ch: Channel): (m: Byte)
    requires |ps| > 0
    ensures m * |ps| <= ChannelSum(ps, ch) < (m + 1) * |ps|
  {
    ChannelSumBetween(ps, ch, 0, 255);
    DivBetween(ChannelSum(ps, ch), |ps|, 0, 255);
    QuotientBounds(ChannelSum(ps, ch), |ps|);
    ChannelSum(ps, ch) / |ps|
  }

  /** The colour one LED shows for a window's pixels: the truncating mean of
      each channel, or black for an empty window (no division happens then). */
  function Average(ps: seq<bv32>): (c: Rgb)
    ensures |ps| == 0 ==> c == Black
  {
    if |ps| == 0 then Black else Rgb(Mean(ps, Red), Mean(ps, Green), Mean(ps, Blue))
  }

  /** The colours of the LEDs of run z, in the order its loop visits them. */
  function RunColors(img: seq<bv32>, width: nat, height: nat, depth: nat, z: Zone): (cs: seq<Rgb>)
    requires |img| == width * height && DepthFits(width, height, depth)
    ensures |cs| == ZoneLeds(z)
  {
    seq(ZoneLeds(z), id requires 0 <= id < ZoneLeds(z) =>
      Average(WindowPixels(img, width, height, ZoneWindow(z, id, width, height, depth))))
  }

  /** The colour of every slot, in wiring order: the runs' colours one after
      another. */
  function Colors(img: seq<bv32>, width: nat, height: nat, depth: nat): (cs: seq<Rgb>)
    requires |img| == width * height && DepthFits(width, height, depth)
    ensures |cs| == LedsTotal
  {
    ZoneOffsets();
    RunColors(img, width, height, depth, BottomRight)
    + RunColors(img, width, height, depth, Right)
    + RunColors(img, width, height, depth, Top)
    + RunColors(img, width, height, depth, Left)
    + RunColors(img, width, height, depth, BottomLeft)
  }

  /** The LED at slot s shows the average colour of the slot's window, which
      is window SlotIndex(s) of the partition. */
  lemma ColorsAt(img: seq<bv32>, width: nat, height: nat, depth: nat, s: Slot)
    requires |img| == width * height && DepthFits(width, height, depth) && s.Valid()
    ensures SlotIndex(s) < LedsTotal
    ensures Colors(img, width, height, depth)[SlotIndex(s)]
         == Average(WindowPixels(img, width, height, ZoneWindow(s.zone, s.id, width, height, depth)))
    ensures Colors(img, width, height, depth)[SlotIndex(s)]
         == Average(WindowPixels(img, width, height, Partition(width, height, depth)[SlotIndex(s)]))
  {
    ZoneOffsets();
    PartitionAt(s, width, height, depth);
    var br := RunColors(img, width, height, depth, BottomRight);
    var r := RunColors(img, width, height, depth, Right);
    var t := RunColors(img, width, height, depth, Top);
    var l := RunColors(img, width, height, depth, Left);
    var bl := RunColors(img, width, height, depth, BottomLeft);
    var cs := Colors(img, width, height, depth);
    assert cs == br + r + t + l + bl;
    match s.zone
    case BottomRight => assert cs[s.id] == br[s.id];
    case Right => assert cs[LedsBottomRight + s.id] == r[s.id];
    case Top => assert cs[ZoneOffset(Top) + s.id] == t[s.id];
    case Left => assert cs[ZoneOffset(Left) + s.id] == l[s.id];
    case BottomLeft => assert cs[ZoneOffset(BottomLeft) + s.id] == bl[s.id];
  }

  /** Summing the rows [rowStart, row + 1) is summing the rows [rowStart, row),
      then row row read by index. */
  lemma RowsSumNext(img: seq<bv32>, width: nat, height: nat, rowStart: nat, colStart: nat, colCount: nat, row: nat, ch: Channel)
    requires |img| == width * height && rowStart <= row < height && colStart + colCount <= width
    ensures row * width + colStart + colCount <= |img|
    ensures RowsSum(img, width, height, rowStart, colStart, colCount, row + 1 - rowStart, ch)
         == RowsSum(img, width, height, rowStart, colStart, colCount, row - rowStart, ch)
          + SliceSum(img, row * width + colStart, row * width + colStart + colCount, ch)
  {
    RowSliceInBounds(width, height, row, colStart, colCount);
    assert rowStart + (row + 1 - rowStart) - 1 == row;
  }

  /** The average of a window's pixels, channel by channel, from the
      row-by-row sums and the pixel count rowCount * colCount: zero for an
      empty window, the truncated quotient otherwise. */
  lemma AverageBySums(img: seq<bv32>, width: nat, height: nat, w: Window, ch: Channel)
    requires |img| == width * height && InBounds(w, width, height)
    ensures Area(w) == 0 ==> RowsSum(img, width, height, w.rowStart, w.colStart, w.colCount, w.rowCount, ch) == 0
    ensures Component(Average(WindowPixels(img, width, height, w)), ch)
         == if Area(w) == 0 then 0
            else RowsSum(img, width, height, w.rowStart, w.colStart, w.colCount, w.rowCount, ch) / Area(w)
  {
    WindowPixelsLength(img, width, height, w);
    RowsSumIsChannelSum(img, width, height, w, ch);
    match ch
    case Red =>
    case Green =>
    case Blue =>
  }

  /** The average from the three channel sums and the pixel count. An
      unfolding helper that keeps Average's definition out of AverageWindow. */
  lemma AverageOfSums(ps: seq<bv32>)
    ensures |ps| == 0 ==> Average(ps) == Black
    ensures |ps| > 0 ==> Average(ps) == Rgb(ChannelSum(ps, Red) / |ps|, ChannelSum(ps, Green) / |ps|, ChannelSum(ps, Blue) / |ps|)
  {
  }

  /** The row loop of the averaging step: the sum of each channel over a
      window's pixels and the number of pixels visited. */
  method SumWindow(img: seq<bv32>, width: nat, height: nat,
                   rowStart: nat, rowCount: nat, colStart: nat, colCount: nat)
    returns (r: nat, g: nat, b: nat, totalPixels: nat)
    requires |img| == width * height
    requires InBounds(Window(rowStart, rowCount, colStart, colCount), width, height)
    ensures var ps := WindowPixels(img, width, height, Window(rowStart, rowCount, colStart, colCount));
            r == ChannelSum(ps, Red) && g == ChannelSum(ps, Green) && b == ChannelSum(ps, Blue)
            && totalPixels == |ps|
  {
    r, g, b, totalPixels := 0, 0, 0, 0;
    var row := rowStart;
    while row < rowStart + rowCount
      invariant rowStart <= row <= rowStart + rowCount
      invariant r == RowsSum(img, width, height, rowStart, colStart, colCount, row - rowStart, Red)
      invariant g == RowsSum(img, width, height, rowStart, colStart, colCount, row - rowStart, Green)
      invariant b == RowsSum(img, width, height, rowStart, colStart, colCount, row - rowStart, Blue)
      invariant totalPixels == (row - rowStart) * colCount
    {
      ghost var r0, g0, b0, t0 := r, g, b, totalPixels;
      r, g, b, totalPixels := AddRow(img, width, height, row, colStart, colCount, r, g, b, totalPixels);
      assert r == RowsSum(img, width, height, rowStart, colStart, colCount, row + 1 - rowStart, Red) by {
        RowsSumNext(img, width, height, rowStart, colStart, colCount, row, Red);
      }
      assert g == RowsSum(img, width, height, rowStart, colStart, colCount, row + 1 - rowStart, Green) by {
        RowsSumNext(img, width, height, rowStart, colStart, colCount, row, Green);
      }
      assert b == RowsSum(img, width, height, rowStart, colStart, colCount, row + 1 - rowStart, Blue) by {
        RowsSumNext(img, width, height, rowStart, colStart, colCount, row, Blue);
      }
      assert totalPixels == (row + 1 - rowStart) * colCount by {
        CountStep(row - rowStart, colCount);
      }
      row := row + 1;
    }
    ghost var w := Window(rowStart, rowCount, colStart, colCount);
    WindowPixelsLength(img, width, height, w);
    RowsSumIsChannelSum(img, width, height, w, Red);
    RowsSumIsChannelSum(img, width, height, w, Green);
    RowsSumIsChannelSum(img, width, height, w, Blue);
  }

  /** The averaging step without its store: sums the window's channels,
      then divides each sum by the pixel count unless the window is empty. */
  method AverageWindow(img: seq<bv32>, width: nat, height: nat,
                       rowStart: nat, rowCount: nat, colStart: nat, colCount: nat)
    returns (r: Byte, g: Byte, b: Byte)
    requires |img| == width * height
    requires InBounds(Window(rowStart, rowCount, colStart, colCount), width, height)
    ensures Rgb(r, g, b) == Average(WindowPixels(img, width, height, Window(rowStart, rowCount, colStart, colCount)))
  {
    ghost var ps := WindowPixels(img, width, height, Window(rowStart, rowCount, colStart, colCount));
    var sumR, sumG, sumB, totalPixels := SumWindow(img, width, height, rowStart, rowCount, colStart, colCount);
    AverageOfSums(ps);
    if totalPixels != 0 {
      sumR := sumR / totalPixels;
      sumG := sumG / totalPixels;
      sumB := sumB / totalPixels;
    }
    r, g, b := sumR, sumG, sumB;
  }

  /** The column loop of the averaging step: adds the channels of the pixels
      of row row, columns [colStart, colStart + colCount), to the running sums
      and counts them. */
  method AddRow(img: seq<bv32>, width: nat, height: nat, row: nat, colStart: nat, colCount: nat,
                r0: nat, g0: nat, b0: nat, t0: nat)
    returns (r: nat, g: nat, b: nat, totalPixels: nat)
    requires |img| == width * height && row < height && colStart + colCount <= width
    ensures row * width + colStart + colCount <= |img|
    ensures r == r0 + SliceSum(img, row * width + colStart, row * width + colStart + colCount, Red)
    ensures g == g0 + SliceSum(img, row * width + colStart, row * width + colStart + colCount, Green)
    ensures b == b0 + SliceSum(img, row * width + colStart, row * width + colStart + colCount, Blue)
    ensures totalPixels == t0 + colCount
  {
    RowSliceInBounds(width, height, row, colStart, colCount);
    r, g, b, totalPixels := r0, g0, b0, t0;
    var col := colStart;
    while col < colStart + colCount
      invariant colStart <= col <= colStart + colCount
      invariant r == r0 + SliceSum(img, row * width + colStart, row * width + col, Red)
      invariant g == g0 + SliceSum(img, row * width + colStart, row * width + col, Green)
      invariant b == b0 + SliceSum(img, row * width + colStart, row * width + col, Blue)
      invariant totalPixels == t0 + (col - colStart)
    {
      var pixel := img[row * width + col];
      r := r + ChannelValue(pixel, Red);
      g := g + ChannelValue(pixel, Green);
      b := b + ChannelValue(pixel, Blue);
      totalPixels := totalPixels + 1;
      col := col + 1;
    }
  }

  /** An empty window averages to black. */
  lemma AverageOfEmpty(img: seq<bv32>, width: nat, height: nat, w: Window)
    requires |img| == width * height && InBounds(w, width, height)
    requires w.rowCount == 0 || w.colCount == 0
    ensures Average(WindowPixels(img, width, height, w)) == Black
  {
    WindowPixelsLength(img, width, height, w);
  }

  /** Each channel of the average lies between the smallest and the largest
      value that channel takes in the window. */
  lemma AverageBetween(ps: seq<bv32>, ch: Channel, lo: nat, hi: nat)
    requires |ps| > 0
    requires forall i :: 0 <= i < |ps| ==> lo <= ChannelValue(ps[i], ch) <= hi
    ensures lo <= Component(Average(ps), ch) <= hi
  {
    ChannelSumBetween(ps, ch, lo, hi);
    DivBetween(ChannelSum(ps, ch), |ps|, lo, hi);
  }

  /** A non-empty run of pixels of one colour averages to exactly that colour. */
  lemma AverageOfUniform(ps: seq<bv32>, c: Rgb)
    requires |ps| > 0
    requires forall i :: 0 <= i < |ps| ==> PixelColor(ps[i]) == c
    ensures Average(ps) == c
  {
    forall ch: Channel
      ensures Component(Average(ps), ch) == Component(c, ch)
    {
      forall i | 0 <= i < |ps|
        ensures ChannelValue(ps[i], ch) == Component(c, ch)
      {
        PixelColorComponent(ps[i], ch);
      }
      AverageBetween(ps, ch, Component(c, ch), Component(c, ch));
    }
    assert Component(Average(ps), Red) == Component(c, Red);
    assert Component(Average(ps), Green) == Component(c, Green);
    assert Component(Average(ps), Blue) == Component(c, Blue);
  }

  /** The pixel at row, col of a width-wide image. */
  function PixelAt(img: seq<bv32>, width: nat, row: nat, col: nat): bv32
    requires row * width + col < |img|
  {
    img[row * width + col]
  }

  /** The pixel at a position of a window's row segment is the image pixel
      at that row and column. */
  lemma RowSliceAt(img: seq<bv32>, width: nat, height: nat, row: nat, colStart: nat, colCount: nat, j: nat)
    requires |img| == width * height && row < height && colStart + colCount <= width
    requires j < colCount
    ensures row * width + colStart + colCount <= |img|
    ensures RowSegment(img, width, height, row, colStart, colCount)[j] == PixelAt(img, width, row, colStart + j)
  {
    RowSliceInBounds(width, height, row, colStart, colCount);
  }

  /** Every pixel read for a window is a pixel inside that window. */
  lemma {:induction false} WindowPixelsInside(img: seq<bv32>, width: nat, height: nat, w: Window, c: Rgb)
    requires |img| == width * height && InBounds(w, width, height)
    requires forall row: nat, col: nat :: Contains(w, row, col) ==> row * width + col < |img| && PixelColor(PixelAt(img, width, row, col)) == c
    ensures forall i :: 0 <= i < |WindowPixels(img, width, height, w)| ==> PixelColor(WindowPixels(img, width, height, w)[i]) == c
    decreases w.rowCount
  {
    if w.rowCount > 0 {
      var prev := w.(rowCount := w.rowCount - 1);
      forall row: nat, col: nat | Contains(prev, row, col)
        ensures row * width + col < |img| && PixelColor(PixelAt(img, width, row, col)) == c
      {
        assert Contains(w, row, col);
      }
      WindowPixelsInside(img, width, height, prev, c);
      var last := w.rowStart + w.rowCount - 1;
      var seg := RowSegment(img, width, height, last, w.colStart, w.colCount);
      var ps := WindowPixels(img, width, height, w);
      var before := WindowPixels(img, width, height, prev);
      forall i | 0 <= i < |ps|
        ensures PixelColor(ps[i]) == c
      {
        if i < |before| {
          assert ps[i] == before[i];
        } else {
          var j := i - |before|;
          RowSliceAt(img, width, height, last, w.colStart, w.colCount, j);
          assert Contains(w, last, w.colStart + j);
          assert ps[i] == seg[j];
        }
      }
    }
  }

  /** The pixel the loops read at row i and column j of the window comes
      i * colCount + j pixels into the window's pixels, and is the image
      pixel at row rowStart + i, column colStart + j. */
  lemma {:induction false} WindowPixelsAt(img: seq<bv32>, width: nat, height: nat, w: Window, i: nat, j: nat)
    requires |img| == width * height && InBounds(w, width, height)
    requires i < w.rowCount && j < w.colCount
    ensures i * w.colCount + j < |WindowPixels(img, width, height, w)|
    ensures (w.rowStart + i) * width + w.colStart + j < |img|
    ensures WindowPixels(img, width, height, w)[i * w.colCount + j] == PixelAt(img, width, w.rowStart + i, w.colStart + j)
    decreases w.rowCount
  {
    var prev := w.(rowCount := w.rowCount - 1);
    var before := WindowPixels(img, width, height, prev);
    var seg := RowSegment(img, width, height, w.rowStart + w.rowCount - 1, w.colStart, w.colCount);
    assert WindowPixels(img, width, height, w) == before + seg;
    WindowPixelsLength(img, width, height, prev);
    WindowPixelsLength(img, width, height, w);
    RowSliceInBounds(width, height, w.rowStart + i, w.colStart, w.colCount);
    if i == w.rowCount - 1 {
      RowSliceAt(img, width, height, w.rowStart + i, w.colStart, w.colCount, j);
    } else {
      CountStep(i, w.colCount);
      MulMono(w.colCount, i + 1, w.rowCount - 1);
      WindowPixelsAt(img, width, height, prev, i, j);
    }
  }

  /** A non-empty window whose every pixel has colour c yields exactly c. */
  lemma UniformWindow(img: seq<bv32>, width: nat, height: nat, w: Window, c: Rgb)
    requires |img| == width * height && InBounds(w, width, height)
    requires Area(w) > 0
    requires forall row: nat, col: nat :: Contains(w, row, col) ==> row * width + col < |img| && PixelColor(PixelAt(img, width, row, col)) == c
    ensures Average(WindowPixels(img, width, height, w)) == c
  {
    WindowPixelsLength(img, width, height, w);
    WindowPixelsInside(img, width, height, w, c);
    AverageOfUniform(WindowPixels(img, width, height, w), c);
  }

  /** Two images agreeing on the low 24 bits of every pixel. */
  predicate SameColorImages(img: seq<bv32>, img': seq<bv32>)
  {
    |img| == |img'| && forall i :: 0 <= i < |img| ==> SameColorBits(img[i], img'[i])
  }

  lemma {:induction false} SliceSumSameColors(ps: seq<bv32>, qs: seq<bv32>, n: nat, ch: Channel)
    requires SameColorImages(ps, qs) && n <= |ps|
    ensures SliceSum(ps, 0, n, ch) == SliceSum(qs, 0, n, ch)
  {
    if n > 0 {
      SliceSumSameColors(ps, qs, n - 1, ch);
      TopByteIgnored(ps[n - 1], qs[n - 1], ch);
    }
  }

  lemma {:induction false} WindowPixelsSameColors(img: seq<bv32>, img': seq<bv32>, width: nat, height: nat, w: Window)
    requires |img| == width * height && InBounds(w, width, height)
    requires SameColorImages(img, img')
    ensures SameColorImages(WindowPixels(img, width, height, w), WindowPixels(img', width, height, w))
    decreases w.rowCount
  {
    if w.rowCount > 0 {
      var prev := w.(rowCount := w.rowCount - 1);
      WindowPixelsSameColors(img, img', width, height, prev);
      var last := w.rowStart + w.rowCount - 1;
      RowSegmentSameColors(img, img', width, height, last, w.colStart, w.colCount);
      SameColorsAppend(WindowPixels(img, width, height, prev), RowSegment(img, width, height, last, w.colStart, w.colCount),
        WindowPixels(img', width, height, prev), RowSegment(img', width, height, last, w.colStart, w.colCount));
    }
  }

  lemma RowSegmentSameColors(img: seq<bv32>, img': seq<bv32>, width: nat, height: nat, row: nat, colStart: nat, colCount: nat)
    requires |img| == width * height && row < height && colStart + colCount <= width
    requires SameColorImages(img, img')
    ensures SameColorImages(RowSegment(img, width, height, row, colStart, colCount), RowSegment(img', width, height, row, colStart, colCount))
  {
    RowSliceInBounds(width, height, row, colStart, colCount);
  }

  lemma SameColorsAppend(a: seq<bv32>, b: seq<bv32>, a': seq<bv32>, b': seq<bv32>)
    requires SameColorImages(a, a') && SameColorImages(b, b')
    ensures SameColorImages(a + b, a' + b')
  {
    forall i | 0 <= i < |a + b|
      ensures SameColorBits((a + b)[i], (a' + b')[i])
    {
      if i >= |a| {
        assert (a + b)[i] == b[i - |a|] && (a' + b')[i] == b'[i - |a|];
      }
    }
  }

  /** The top byte of the pixels never affects the LED colours. */
  lemma ColorsIgnoreTopByte(img: seq<bv32>, img': seq<bv32>, width: nat, height: nat, depth: nat)
    requires |img| == width * height && DepthFits(width, height, depth)
    requires SameColorImages(img, img')
    ensures Colors(img, width, height, depth) == Colors(img', width, height, depth)
  {
    forall k | 0 <= k < LedsTotal
      ensures Colors(img, width, height, depth)[k] == Colors(img', width, height, depth)[k]
    {
      var s := SlotAt(k);
      ColorsAt(img, width, height, depth, s);
      ColorsAt(img', width, height, depth, s);
      var w := ZoneWindow(s.zone, s.id, width, height, depth);
      var ps := WindowPixels(img, width, height, w);
      var qs := WindowPixels(img', width, height, w);
      WindowPixelsSameColors(img, img', width, height, w);
      SliceSumSameColors(ps, qs, |ps|, Red);
      SliceSumSameColors(ps, qs, |ps|, Green);
      SliceSumSameColors(ps, qs, |ps|, Blue);
    }
  }

  /** With a band of depth 0 every window is empty and every LED is black. */
  lemma ZeroDepthIsBlack(img: seq<bv32>, width: nat, height: nat)
    requires |img| == width * height
    ensures forall k :: 0 <= k < LedsTotal ==> Colors(img, width, height, 0)[k] == Black
  {
    forall k | 0 <= k < LedsTotal
      ensures Colors(img, width, height, 0)[k] == Black
    {
      var s := SlotAt(k);
      ColorsAt(img, width, height, 0, s);
      var w := ZoneWindow(s.zone, s.id, width, height, 0);
      assert w.rowCount == 0 || w.colCount == 0;
      AverageOfEmpty(img, width, height, w);
    }
  }

  /** An image narrower than LedsTop + 2 pixels has a horizontal pitch of 0,
      so every LED of the bottom and top runs is black. */
  lemma NarrowImageBlackRuns(img: seq<bv32>, width: nat, height: nat, depth: nat, k: nat)
    requires |img| == width * height && DepthFits(width, height, depth)
    requires width < LedsTop + 2
    requires k < LedsTotal && SlotAt(k).zone in {BottomRight, Top, BottomLeft}
    ensures Colors(img, width, height, depth)[k] == Black
  {
    var s := SlotAt(k);
    var w := ZoneWindow(s.zone, s.id, width, height, depth);
    assert Colors(img, width, height, depth)[k] == Average(WindowPixels(img, width, height, w)) by {
      ColorsAt(img, width, height, depth, s);
    }
    assert HorizontalPixelsPerLed(width) == 0;
    AverageOfEmpty(img, width, height, w);
  }
}
