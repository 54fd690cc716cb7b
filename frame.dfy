/** The serial frame |Header|RGB...|Footer| and the routine that fills its
    colour region in place from a captured image. */
module Frame {
  import opened LedLayout
  import opened Geometry
  import opened Reduce

  /** The three bytes of one slot, in R, G, B order. */
  function Triple(c: Rgb): (t: seq<Byte>)
    ensures |t| == 3
  {
    [c.r, c.g, c.b]
  }

  /** The colour region of a frame: the slots' triples one after another. */
  function Encode(colors: seq<Rgb>): (bytes: seq<Byte>)
    ensures |bytes| == 3 * |colors|
  {
    if colors == [] then [] else Encode(colors[..|colors| - 1]) + Triple(colors[|colors| - 1])
  }

  /** Reads the colours back from a colour region, as the receiver does. */
  function Decode(bytes: seq<Byte>): (colors: seq<Rgb>)
    requires |bytes| % 3 == 0
    ensures 3 * |colors| == |bytes|
  {
    if bytes == [] then []
    else
      var n := |bytes| - 3;
      Decode(bytes[..n]) + [Rgb(bytes[n], bytes[n + 1], bytes[n + 2])]
  }

  /** Decoding an encoded colour sequence gives it back. */
  lemma {:induction false} DecodeEncode(colors: seq<Rgb>)
    ensures Decode(Encode(colors)) == colors
  {
    if colors != [] {
      var n := |colors| - 1;
      var e := Encode(colors);
      assert e[..3 * n] == Encode(colors[..n]);
      DecodeEncode(colors[..n]);
    }
  }

  /** Slot k's colour occupies bytes [3k, 3k + 3) of the colour region. */
  lemma {:induction false} EncodeAt(colors: seq<Rgb>, k: nat)
    requires k < |colors|
    ensures 3 * k + 3 <= |Encode(colors)|
    ensures Encode(colors)[3 * k .. 3 * k + 3] == Triple(colors[k])
  {
    var n := |colors| - 1;
    if k < n {
      EncodeAt(colors[..n], k);
      assert Encode(colors)[..3 * n] == Encode(colors[..n]);
    }
  }

  /** Encoding one more colour appends its triple. */
  lemma EncodeSnoc(colors: seq<Rgb>, n: nat)
    requires n < |colors|
    ensures Encode(colors[..n + 1]) == Encode(colors[..n]) + Triple(colors[n])
  {
    assert colors[..n + 1][..n] == colors[..n];
  }

  /** Encoding a concatenation concatenates the encodings. */
  lemma {:induction false} EncodeAppend(a: seq<Rgb>, b: seq<Rgb>)
    ensures Encode(a + b) == Encode(a) + Encode(b)
    decreases |b|
  {
    if b != [] {
      var n := |b| - 1;
      assert (a + b)[..|a + b| - 1] == a + b[..n];
      assert (a + b)[|a + b| - 1] == b[n];
      EncodeAppend(a, b[..n]);
    } else {
      assert a + b == a;
    }
  }

  /** bytes with [offset, offset + |payload|) replaced by payload. */
  function Overwrite(bytes: seq<Byte>, offset: nat, payload: seq<Byte>): (r: seq<Byte>)
    requires offset + |payload| <= |bytes|
    ensures |r| == |bytes|
    ensures forall i :: 0 <= i < |r| ==> r[i] == if offset <= i < offset + |payload| then payload[i - offset] else bytes[i]
  {
    bytes[..offset] + payload + bytes[offset + |payload|..]
  }

  /** An overwrite puts the payload in its place and keeps every byte before
      and after it. */
  lemma OverwriteParts(bytes: seq<Byte>, offset: nat, payload: seq<Byte>)
    requires offset + |payload| <= |bytes|
    ensures Overwrite(bytes, offset, payload)[..offset] == bytes[..offset]
    ensures Overwrite(bytes, offset, payload)[offset .. offset + |payload|] == payload
    ensures Overwrite(bytes, offset, payload)[offset + |payload| ..] == bytes[offset + |payload| ..]
  {
    var r := Overwrite(bytes, offset, payload);
    assert r[..offset] == bytes[..offset];
    assert r[offset .. offset + |payload|] == payload;
    assert r[offset + |payload| ..] == bytes[offset + |payload| ..];
  }

  /** The payload's triple at 3k lands at offset + 3k. A resource helper:
      Overwrite's own ensures, stated in the slot form SlotBytes needs. */
  lemma OverwriteTripleAt(bytes: seq<Byte>, offset: nat, payload: seq<Byte>, k: nat)
    requires 3 * k + 3 <= |payload| && offset + |payload| <= |bytes|
    ensures Overwrite(bytes, offset, payload)[offset + 3 * k .. offset + 3 * k + 3] == payload[3 * k .. 3 * k + 3]
  {
  }

  /** After the colour region at offset is overwritten with an encoding, slot
      k's three bytes sit at offset + 3k. */
  lemma SlotBytes(bytes: seq<Byte>, offset: nat, colors: seq<Rgb>, k: nat)
    requires k < |colors| && offset + 3 * |colors| <= |bytes|
    ensures offset + 3 * k + 3 <= |bytes|
    ensures Overwrite(bytes, offset, Encode(colors))[offset + 3 * k .. offset + 3 * k + 3] == Triple(colors[k])
  {
    EncodeAt(colors, k);
    OverwriteTripleAt(bytes, offset, Encode(colors), k);
  }

  /** Overwriting with one triple updates three consecutive bytes. */
  lemma OverwriteTriple(bytes: seq<Byte>, offset: nat, c: Rgb)
    requires offset + 3 <= |bytes|
    ensures Overwrite(bytes, offset, Triple(c)) == bytes[offset := c.r][offset + 1 := c.g][offset + 2 := c.b]
  {
    var a := Overwrite(bytes, offset, Triple(c));
    var b: seq<Byte> := bytes[offset := c.r][offset + 1 := c.g][offset + 2 := c.b];
    assert forall i :: 0 <= i < |a| ==> a[i] == b[i];
  }

  /** Two adjacent overwrites are one overwrite with the joined payload. */
  lemma OverwriteAdjacent(bytes: seq<Byte>, offset: nat, p: seq<Byte>, q: seq<Byte>)
    requires offset + |p| + |q| <= |bytes|
    ensures Overwrite(Overwrite(bytes, offset, p), offset + |p|, q) == Overwrite(bytes, offset, p + q)
  {
    var a := Overwrite(Overwrite(bytes, offset, p), offset + |p|, q);
    var b := Overwrite(bytes, offset, p + q);
    assert forall i :: 0 <= i < |a| ==> a[i] == b[i];
  }

  /** Overwriting the same region twice leaves only the second payload; writing
      the same payload twice is the same as writing it once. */
  lemma OverwriteTwice(bytes: seq<Byte>, offset: nat, p: seq<Byte>, q: seq<Byte>)
    requires offset + |p| <= |bytes| && |q| == |p|
    ensures Overwrite(Overwrite(bytes, offset, p), offset, q) == Overwrite(bytes, offset, q)
    ensures Overwrite(Overwrite(bytes, offset, p), offset, p) == Overwrite(bytes, offset, p)
  {
    var a := Overwrite(Overwrite(bytes, offset, p), offset, q);
    var b := Overwrite(bytes, offset, q);
    assert forall i :: 0 <= i < |a| ==> a[i] == b[i];
  }

  /** Writing slot n's triple right after the first n triples extends the
      written colour region by one slot. */
  lemma PushStep(bytes: seq<Byte>, offset: nat, colors: seq<Rgb>, n: nat)
    requires n < |colors| && offset + 3 * |colors| <= |bytes|
    ensures offset + 3 * n + 3 <= |bytes|
    ensures Overwrite(Overwrite(bytes, offset, Encode(colors[..n])), offset + 3 * n, Triple(colors[n]))
            == Overwrite(bytes, offset, Encode(colors[..n + 1]))
  {
    EncodeSnoc(colors, n);
    OverwriteAdjacent(bytes, offset, Encode(colors[..n]), Triple(colors[n]));
  }

  /** Length of a frame: header, one triple per LED, footer. */
  function FrameLength(headerLen: nat, footerLen: nat): nat
  {
    headerLen + footerLen + 3 * LedsTotal
  }

  /** The process-wide serial frame buffer. Its header and footer are each as
      long as a pointer (the size of the framing literals' pointer type); the
      buffer is allocated once and never reallocated. */
  class SerialFrame {
    const headerLen: nat
    const footerLen: nat
    const data: array<Byte>

    ghost predicate Valid()
      reads this
    {
      data.Length == FrameLength(headerLen, footerLen)
    }

    /** The header bytes. */
    ghost function Header(): seq<Byte>
      reads this, data
      requires Valid()
    {
      data[..headerLen]
    }

    /** The colour region. */
    ghost function Payload(): seq<Byte>
      reads this, data
      requires Valid()
    {
      data[headerLen .. headerLen + 3 * LedsTotal]
    }

    /** The footer bytes. */
    ghost function Footer(): seq<Byte>
      reads this, data
      requires Valid()
    {
      data[headerLen + 3 * LedsTotal ..]
    }

    /** The zero-initialised buffer of static storage. */
    constructor (pointerSize: nat)
      ensures Valid() && fresh(data)
      ensures headerLen == pointerSize && footerLen == pointerSize
      ensures forall i :: 0 <= i < data.Length ==> data[i] == 0
    {
      headerLen := pointerSize;
      footerLen := pointerSize;
      data := new Byte[FrameLength(pointerSize, pointerSize)](_ => 0);
    }

    /** Startup: copy the header to the front and the footer to the back. */
    method WriteFraming(header: seq<Byte>, footer: seq<Byte>)
      requires Valid() && |header| == headerLen && |footer| == footerLen
      modifies data
      ensures Header() == header && Footer() == footer
      ensures Payload() == old(Payload())
    {
      forall i | 0 <= i < headerLen {
        data[i] := header[i];
      }
      forall i | 0 <= i < footerLen {
        data[data.Length - footerLen + i] := footer[i];
      }
      assert Header() == header;
      assert Footer() == footer;
    }

    /** Sums each channel over the window, divides by the pixel count when it
        is not zero, and writes the three bytes at position it. */
    method ComputeAverageAndPush(img: seq<bv32>, width: nat, height: nat, it: nat,
                                 rowStart: nat, rowCount: nat, colStart: nat, colCount: nat)
      returns (next: nat)
      requires Valid() && |img| == width * height
      requires InBounds(Window(rowStart, rowCount, colStart, colCount), width, height)
      requires it + 3 <= data.Length
      modifies data
      ensures next == it + 3
      ensures data[..] == Overwrite(old(data[..]), it,
        Triple(Average(WindowPixels(img, width, height, Window(rowStart, rowCount, colStart, colCount)))))
    {
      var r, g, b := AverageWindow(img, width, height, rowStart, rowCount, colStart, colCount);
      ghost var c := Rgb(r, g, b);
      ghost var prev := data[..];
      data[it] := r;
      data[it + 1] := g;
      data[it + 2] := b;
      next := it + 3;
      ghost var expected: seq<Byte> := prev[it := c.r][it + 1 := c.g][it + 2 := c.b];
      assert data[..] == expected;
      OverwriteTriple(prev, it, c);
    }

    /** One pass of a run's loop: the averaging step called with the run's
        window formula for LED id. */
    method PushSlot(z: Zone, id: nat, width: nat, height: nat, depth: nat, img: seq<bv32>, it: nat)
      returns (next: nat)
      requires Valid() && |img| == width * height && DepthFits(width, height, depth)
      requires id < ZoneLeds(z) && it + 3 <= data.Length
      modifies data
      ensures next == it + 3
      ensures data[..] == Overwrite(old(data[..]), it, Triple(RunColors(img, width, height, depth, z)[id]))
    {
      var w := ZoneWindow(z, id, width, height, depth);
      next := ComputeAverageAndPush(img, width, height, it, w.rowStart, w.rowCount, w.colStart, w.colCount);
    }

    /** One run's loop: for each LED of run z, in loop order, averages its
        window and writes the three bytes at it, moving it on by three. */
    method PushRun(z: Zone, width: nat, height: nat, depth: nat, img: seq<bv32>, it: nat)
      returns (next: nat)
      requires Valid() && |img| == width * height && DepthFits(width, height, depth)
      requires it + 3 * ZoneLeds(z) <= data.Length
      modifies data
      ensures next == it + 3 * ZoneLeds(z)
      ensures data[..] == Overwrite(old(data[..]), it, Encode(RunColors(img, width, height, depth, z)))
    {
      ghost var colors := RunColors(img, width, height, depth, z);
      ghost var before := data[..];
      next := it;
      var id := 0;
      while id < ZoneLeds(z)
        invariant id <= ZoneLeds(z)
        invariant next == it + 3 * id
        invariant data[..] == Overwrite(before, it, Encode(colors[..id]))
      {
        PushStep(before, it, colors, id);
        next := PushSlot(z, id, width, height, depth, img, next);
        id := id + 1;
      }
      assert colors[..id] == colors;
    }

    /** Fills the colour region with the average colour of every slot's window,
        run after run in wiring order; the header and footer are left as they
        were. */
    method ComputeColors(width: nat, height: nat, depth: nat, img: seq<bv32>)
      requires Valid() && |img| == width * height
      requires DepthFits(width, height, depth)
      modifies data
      ensures data[..] == Overwrite(old(data[..]), headerLen, Encode(Colors(img, width, height, depth)))
      ensures Header() == old(Header()) && Footer() == old(Footer())
      ensures Payload() == Encode(Colors(img, width, height, depth))
    {
      ghost var before := data[..];
      ghost var br := RunColors(img, width, height, depth, BottomRight);
      ghost var r := RunColors(img, width, height, depth, Right);
      ghost var t := RunColors(img, width, height, depth, Top);
      ghost var l := RunColors(img, width, height, depth, Left);
      ghost var bl := RunColors(img, width, height, depth, BottomLeft);
      ZoneOffsets();
      var it := headerLen;
      it := PushRun(BottomRight, width, height, depth, img, it);
      it := PushRun(Right, width, height, depth, img, it);
      OverwriteAdjacent(before, headerLen, Encode(br), Encode(r));
      EncodeAppend(br, r);
      it := PushRun(Top, width, height, depth, img, it);
      OverwriteAdjacent(before, headerLen, Encode(br + r), Encode(t));
      EncodeAppend(br + r, t);
      it := PushRun(Left, width, height, depth, img, it);
      OverwriteAdjacent(before, headerLen, Encode(br + r + t), Encode(l));
      EncodeAppend(br + r + t, l);
      it := PushRun(BottomLeft, width, height, depth, img, it);
      OverwriteAdjacent(before, headerLen, Encode(br + r + t + l), Encode(bl));
      EncodeAppend(br + r + t + l, bl);
      OverwriteParts(before, headerLen, Encode(Colors(img, width, height, depth)));
    }
  }

  /** After a frame's colour region is filled, the three bytes at
      headerLen + 3 * SlotIndex(s) are the average colour of slot s's window. */
  lemma SlotInFrame(bytes: seq<Byte>, headerLen: nat, img: seq<bv32>, width: nat, height: nat, depth: nat, s: Slot)
    requires s.Valid() && |img| == width * height && DepthFits(width, height, depth)
    requires headerLen + 3 * LedsTotal <= |bytes|
    ensures headerLen + 3 * SlotIndex(s) + 3 <= |bytes|
    ensures Overwrite(bytes, headerLen, Encode(Colors(img, width, height, depth)))[headerLen + 3 * SlotIndex(s) .. headerLen + 3 * SlotIndex(s) + 3]
            == Triple(Average(WindowPixels(img, width, height, ZoneWindow(s.zone, s.id, width, height, depth))))
  {
    var cs := Colors(img, width, height, depth);
    var k := SlotIndex(s);
    ColorsAt(img, width, height, depth, s);
    SlotBytes(bytes, headerLen, cs, k);
  }

  /** The receiver reads back exactly the colours of the frame's colour region. */
  lemma PayloadDecodes(bytes: seq<Byte>, headerLen: nat, img: seq<bv32>, width: nat, height: nat, depth: nat)
    requires |img| == width * height && DepthFits(width, height, depth)
    requires headerLen + 3 * LedsTotal <= |bytes|
    ensures Decode(Overwrite(bytes, headerLen, Encode(Colors(img, width, height, depth)))[headerLen .. headerLen + 3 * LedsTotal])
            == Colors(img, width, height, depth)
  {
    var cs := Colors(img, width, height, depth);
    OverwriteParts(bytes, headerLen, Encode(cs));
    DecodeEncode(cs);
  }
}
