/** The e-ink adapter: the framebuffer geometry worked out by the constructor, the mapping of a
    pixel to a byte and bit of that buffer, and the redraw rate limit of `forceDisplay`. */
module EInk {
  import opened Common

  const EinkWidth: nat := 250
  const EinkHeight: nat := 122
  /** `slowUpdateMsec`: five minutes between periodic redraws. */
  const SlowUpdateMsec: u32 := 5 * 60 * 1000
  /** The default `msecLimit` of `forceDisplay`. */
  const DefaultMsecLimit: u32 := 1000

  /** `s | 7` for a non-negative `s`: the value with its low three bits set, that is the last
      number of its block of eight. */
  function OrSeven(s: nat): nat
  {
    s - s % 8 + 7
  }

  /** The constructor's rounding of the short side: `(s | 7) + 1` when it is not a multiple of 8. */
  function RoundUpToByte(s: nat): nat
  {
    if s % 8 != 0 then OrSeven(s) + 1 else s
  }

  /** The rounded side is the least multiple of 8 not below the side. */
  lemma RoundUpToByteLeast(s: nat)
    ensures RoundUpToByte(s) % 8 == 0 && s <= RoundUpToByte(s) < s + 8
    ensures forall m: nat {:trigger m % 8} :: m % 8 == 0 && m >= s ==> m >= RoundUpToByte(s)
  {
  }

  /** A side that is already a multiple of 8 is kept; the 122-pixel side becomes 128. */
  lemma RoundUpExamples()
    ensures RoundUpToByte(128) == 128 && RoundUpToByte(122) == 128 && RoundUpToByte(250) == 256
  {
  }

  /** `displayBufferSize`: the long side times the rounded short side in bytes. */
  function BufferSize(width: nat, height: nat): nat
  {
    Max(width, height) * (RoundUpToByte(Min(width, height)) / 8)
  }

  lemma EinkBufferSize()
    ensures BufferSize(EinkWidth, EinkHeight) == 250 * 16 == 4000
  {
  }

  /** The byte of the framebuffer holding pixel (x, y): byte x of band y / 8, where each band
      holds eight rows in `width` bytes. */
  function PixelIndex(x: nat, y: nat, width: nat): nat
  {
    x + RowStart(y / 8, width)
  }

  /** The index the copy loop computes, `x + (y / 8) * width`. */
  lemma PixelIndexFormula(x: nat, y: nat, width: nat)
    ensures PixelIndex(x, y, width) == x + (y / 8) * width
  {
    RowStartIsProduct(y / 8, width);
  }

  /** The bit of that byte: `y & 7`. */
  function PixelBit(y: nat): (b: nat)
    ensures b < 8
  {
    y % 8
  }

  /** Every pixel of a landscape display falls inside the buffer. */
  lemma PixelIndexInBuffer(x: nat, y: nat, width: nat, height: nat)
    requires height <= width && x < width && y < height
    ensures PixelIndex(x, y, width) < BufferSize(width, height)
  {
    RoundUpToByteLeast(height);
    var bands := RoundUpToByte(height) / 8;
    assert y / 8 < bands;
    RowStartMonotone(y / 8, bands, width);
    RowStartIsProduct(bands, width);
    assert BufferSize(width, height) == width * bands;
  }

  lemma MulMonotone(a: nat, b: nat, c: nat)
    requires a <= b
    ensures a * c <= b * c
  {
  }

  /** No two pixels share a byte and a bit. */
  lemma PixelMappingInjective(x1: nat, y1: nat, x2: nat, y2: nat, width: nat)
    requires x1 < width && x2 < width
    requires PixelIndex(x1, y1, width) == PixelIndex(x2, y2, width) && PixelBit(y1) == PixelBit(y2)
    ensures x1 == x2 && y1 == y2
  {
    PixelIndexFormula(x1, y1, width);
    PixelIndexFormula(x2, y2, width);
    SameBand(x1, y1 / 8, x2, y2 / 8, width);
    assert y1 == 8 * (y1 / 8) + y1 % 8 && y2 == 8 * (y2 / 8) + y2 % 8;
  }

  /** Within a row of bands of `width` bytes, a byte position determines its band and column. */
  lemma SameBand(x1: nat, b1: nat, x2: nat, b2: nat, width: nat)
    requires x1 < width && x2 < width && x1 + b1 * width == x2 + b2 * width
    ensures b1 == b2 && x1 == x2
  {
    if b1 < b2 {
      MulMonotone(b1 + 1, b2, width);
    } else if b2 < b1 {
      MulMonotone(b2 + 1, b1, width);
    }
  }

  /** Bit k of the byte, counting from the least significant: the parity of `b` after k halvings. */
  predicate BitSet(b: byte, k: nat)
    requires k < 8
  {
    if k == 0 then b % 2 == 1 else BitSet(b / 2, k - 1)
  }

  /** The colour test `b & (1 << k)` of the copy loop, on the byte's bits, agrees with bit k. */
  lemma {:induction false} BitSetIsBitwiseAnd(v: bv8, k: nat)
    requires k < 8
    ensures BitSet(v as int, k) <==> v & ((1 as bv8) << k) != 0
  {
    if k > 0 {
      ShiftIsHalving(v);
      BitSetIsBitwiseAnd(v >> 1, k - 1);
      ShiftedBit(v, k);
    }
  }

  lemma ShiftIsHalving(v: bv8)
    ensures (v >> 1) as int == (v as int) / 2
  {
  }

  lemma ShiftedBit(v: bv8, k: nat)
    requires 0 < k < 8
    ensures (v & ((1 as bv8) << k) != 0) <==> ((v >> 1) & ((1 as bv8) << (k - 1)) != 0)
  {
  }

  /** One `drawPixel(x, y, colour)` call. */
  datatype Pixel = Pixel(x: nat, y: nat, black: bool)

  /** The pixel the copy loop draws at (x, y) from the framebuffer `buf`: black exactly when the
      pixel's bit is set. (A pixel whose byte lies past the buffer is never drawn, see `FrameFits`;
      it is white here only so that the function is total.) */
  function PixelOf(buf: seq<byte>, x: nat, y: nat, width: nat): Pixel
  {
    var i := PixelIndex(x, y, width);
    Pixel(x, y, i < |buf| && BitSet(buf[i], PixelBit(y)))
  }

  /** Where row y begins in the drawing order, and band y in the buffer: y runs of `width`. */
  function RowStart(y: nat, width: nat): nat
  {
    if y == 0 then 0 else RowStart(y - 1, width) + width
  }

  lemma {:induction false} RowStartIsProduct(y: nat, width: nat)
    ensures RowStart(y, width) == y * width
  {
    if y > 0 {
      RowStartIsProduct(y - 1, width);
      NextRowStart(y - 1, width);
    }
  }

  lemma NextRowStart(y: nat, width: nat)
    ensures (y + 1) * width == y * width + width
  {
  }

  lemma {:induction false} RowStartMonotone(y: nat, rows: nat, width: nat)
    requires y <= rows
    ensures RowStart(y, width) <= RowStart(rows, width)
    ensures y < rows ==> RowStart(y, width) + width <= RowStart(rows, width)
  {
    if y < rows {
      RowStartMonotone(y, rows - 1, width);
    }
  }

  /** The bands that hold the first h rows fit in the buffer. */
  predicate FrameFits(buf: seq<byte>, width: nat, h: nat)
  {
    h == 0 || RowStart((h - 1) / 8 + 1, width) <= |buf|
  }

  /** Every pixel of those rows then reads inside the buffer. */
  lemma PixelFits(buf: seq<byte>, x: nat, y: nat, width: nat, h: nat)
    requires FrameFits(buf, width, h) && x < width && y < h
    ensures PixelIndex(x, y, width) < |buf|
  {
    RowStartMonotone(y / 8 + 1, (h - 1) / 8 + 1, width);
  }

  lemma FrameFitsLower(buf: seq<byte>, width: nat, h: nat, k: nat)
    requires FrameFits(buf, width, h) && k <= h
    ensures FrameFits(buf, width, k)
  {
    if k > 0 {
      RowStartMonotone((k - 1) / 8 + 1, (h - 1) / 8 + 1, width);
    }
  }

  /** A landscape buffer of the computed size holds every band of the screen. */
  lemma BufferFits(buf: seq<byte>, width: nat, height: nat)
    requires height <= width && |buf| == BufferSize(width, height)
    ensures FrameFits(buf, width, height)
  {
    if height > 0 {
      RoundUpToByteLeast(height);
      var bands := RoundUpToByte(height) / 8;
      assert bands == (height - 1) / 8 + 1;
      RowStartIsProduct(bands, width);
      assert BufferSize(width, height) == width * bands;
    }
  }

  /** Pixels 0..n-1 of row y, left to right. */
  function RowPrefix(buf: seq<byte>, y: nat, n: nat, width: nat): (r: seq<Pixel>)
    ensures |r| == n
  {
    if n == 0 then [] else RowPrefix(buf, y, n - 1, width) + [PixelOf(buf, n - 1, y, width)]
  }

  /** Rows 0..h-1, each drawn left to right: what the nested loops of `forceDisplay` draw. */
  function Frame(buf: seq<byte>, width: nat, h: nat): (r: seq<Pixel>)
  {
    if h == 0 then [] else Frame(buf, width, h - 1) + RowPrefix(buf, h - 1, width, width)
  }

  lemma FrameStep(buf: seq<byte>, width: nat, y: nat)
    ensures Frame(buf, width, y + 1) == Frame(buf, width, y) + RowPrefix(buf, y, width, width)
  {
  }

  /** One more row appended to what was drawn before. */
  lemma DrawnStep(before: seq<Pixel>, buf: seq<byte>, width: nat, y: nat)
    ensures before + Frame(buf, width, y) + RowPrefix(buf, y, width, width) == before + Frame(buf, width, y + 1)
  {
    FrameStep(buf, width, y);
  }

  lemma {:induction false} FrameLength(buf: seq<byte>, width: nat, h: nat)
    ensures |Frame(buf, width, h)| == RowStart(h, width)
  {
    if h > 0 {
      FrameLength(buf, width, h - 1);
    }
  }

  lemma {:induction false} RowPrefixAt(buf: seq<byte>, y: nat, n: nat, width: nat, x: nat)
    requires x < n
    ensures RowPrefix(buf, y, n, width)[x] == PixelOf(buf, x, y, width)
  {
    if x < n - 1 {
      RowPrefixAt(buf, y, n - 1, width, x);
    }
  }

  /** The rows drawn first stay at the front as later rows are added. */
  lemma {:induction false} FramePrefix(buf: seq<byte>, width: nat, k: nat, h: nat)
    requires k <= h
    ensures Frame(buf, width, k) <= Frame(buf, width, h)
  {
    if k < h {
      FramePrefix(buf, width, k, h - 1);
      PrefixOfConcat(Frame(buf, width, k), Frame(buf, width, h - 1), RowPrefix(buf, h - 1, width, width));
    }
  }

  /** The frame draws pixel (x, y) as draw number `RowStart(y, width) + x`; when the rows fit in
      the buffer, that pixel is black exactly when its bit of byte `x + (y / 8) * width` is set. */
  lemma FrameAt(buf: seq<byte>, width: nat, h: nat, x: nat, y: nat)
    requires x < width && y < h
    ensures RowStart(y, width) + x < |Frame(buf, width, h)|
    ensures Frame(buf, width, h)[RowStart(y, width) + x] == PixelOf(buf, x, y, width)
    ensures FrameFits(buf, width, h) ==>
      PixelIndex(x, y, width) < |buf| && PixelOf(buf, x, y, width).black == BitSet(buf[PixelIndex(x, y, width)], PixelBit(y))
  {
    FramePrefix(buf, width, y + 1, h);
    FrameLength(buf, width, y);
    var before := Frame(buf, width, y);
    var row := RowPrefix(buf, y, width, width);
    var front := Frame(buf, width, y + 1);
    assert front == before + row;
    RowPrefixAt(buf, y, width, width, x);
    ConcatRight(before, row, x);
    PrefixAt(front, Frame(buf, width, h), RowStart(y, width) + x);
    if FrameFits(buf, width, h) {
      PixelFits(buf, x, y, width, h);
    }
  }

  lemma PrefixAt<T>(a: seq<T>, b: seq<T>, i: nat)
    requires a <= b && i < |a|
    ensures i < |b| && b[i] == a[i]
  {
    assert b[..|a|][i] == b[i];
  }

  lemma PrefixOfConcat<T>(a: seq<T>, b: seq<T>, c: seq<T>)
    requires a <= b
    ensures a <= b + c
  {
    assert (b + c)[..|a|] == b[..|a|];
  }

  lemma ConcatRight<T>(a: seq<T>, b: seq<T>, i: nat)
    requires i < |b|
    ensures (a + b)[|a| + i] == b[i]
  {
  }

  /** The GxEPD2 panel driver, as far as the copy loop uses it: the `drawPixel` calls it has
      received and how many times it was put to sleep. */
  class Panel {
    var drawn: seq<Pixel>
    var hibernations: nat

    constructor ()
      ensures drawn == [] && hibernations == 0
    {
      drawn := [];
      hibernations := 0;
    }

    method DrawPixel(x: nat, y: nat, black: bool)
      modifies this
      ensures drawn == old(drawn) + [Pixel(x, y, black)] && hibernations == old(hibernations)
    {
      drawn := drawn + [Pixel(x, y, black)];
    }

    /** `endUpdate`: `hibernate()`. */
    method Hibernate()
      modifies this
      ensures drawn == old(drawn) && hibernations == old(hibernations) + 1
    {
      hibernations := hibernations + 1;
    }
  }

  /** The e-ink screen: its geometry, the framebuffer (null until the base class allocates it),
      the panel driver (null until `connect` creates it) and the time of the last draw. */
  class EInkDisplay {
    const displayWidth: nat
    const displayHeight: nat
    const displayBufferSize: nat
    const buffer: array?<byte>
    const panel: Panel?
    var lastDrawMsec: u32

    /** The constructor: 250 x 122 pixels and the buffer size worked out from them; the buffer
        itself is allocated by the base class with that size. */
    constructor (buffer: array?<byte>, panel: Panel?)
      requires buffer != null ==> buffer.Length == BufferSize(EinkWidth, EinkHeight)
      ensures displayWidth == EinkWidth && displayHeight == EinkHeight
      ensures displayBufferSize == BufferSize(EinkWidth, EinkHeight) == 4000
      ensures this.buffer == buffer && this.panel == panel && lastDrawMsec == 0
      ensures Valid()
    {
      displayWidth := EinkWidth;
      displayHeight := EinkHeight;
      var shortSide := Min(EinkWidth, EinkHeight);
      var longSide := Max(EinkWidth, EinkHeight);
      if shortSide % 8 != 0 {
        shortSide := OrSeven(shortSide) + 1;
      }
      displayBufferSize := longSide * (shortSide / 8);
      this.buffer := buffer;
      this.panel := panel;
      lastDrawMsec := 0;
      EinkBufferSize();
    }

    predicate Valid()
      reads this
    {
      displayWidth == EinkWidth && displayHeight == EinkHeight
      && displayBufferSize == BufferSize(displayWidth, displayHeight)
      && (buffer != null ==> buffer.Length == displayBufferSize)
    }

    /** Whether `forceDisplay(msecLimit)` at time `now` goes ahead: a panel and a buffer exist,
        and either nothing was drawn yet or at least `msecLimit` has passed since the last draw. */
    predicate MayDraw(msecLimit: u32, now: u32)
      reads this
    {
      panel != null && buffer != null && (Elapsed(now, lastDrawMsec) >= msecLimit || lastDrawMsec == 0)
    }

    /** `forceDisplay`: refuse without a panel or buffer or within the rate limit; otherwise
        note the time, copy every pixel of the framebuffer to the panel row by row, and hibernate. */
    method ForceDisplay(msecLimit: u32, now: u32) returns (ok: bool)
      requires Valid()
      modifies this`lastDrawMsec, panel
      ensures ok <==> old(MayDraw(msecLimit, now))
      ensures !ok ==> lastDrawMsec == old(lastDrawMsec) && (panel != null ==> unchanged(panel))
      ensures ok ==> panel != null && buffer != null && lastDrawMsec == now
                     && panel.drawn == old(panel.drawn) + Frame(buffer[..], displayWidth, displayHeight)
                     && panel.hibernations == old(panel.hibernations) + 1
    {
      var sinceLast := Elapsed(now, lastDrawMsec);
      if panel == null {
        return false;
      }
      if buffer == null {
        return false;
      }
      if sinceLast < msecLimit && lastDrawMsec != 0 {
        return false;
      }
      lastDrawMsec := now;
      BufferFits(buffer[..], displayWidth, displayHeight);
      CopyFrame(buffer, panel);
      panel.Hibernate();
      ok := true;
    }

    /** The nested loops of `forceDisplay`: one `drawPixel` per pixel, row by row, each black
        exactly when its bit in the framebuffer is set. */
    method CopyFrame(buffer: array<byte>, panel: Panel)
      requires FrameFits(buffer[..], displayWidth, displayHeight)
      modifies panel
      ensures panel.drawn == old(panel.drawn) + Frame(buffer[..], displayWidth, displayHeight)
      ensures panel.hibernations == old(panel.hibernations)
    {
      ghost var buf, before := buffer[..], panel.drawn;
      var y: nat := 0;
      while y < displayHeight
        invariant y <= displayHeight && buffer[..] == buf
        invariant panel.drawn == before + Frame(buf, displayWidth, y)
        invariant panel.hibernations == old(panel.hibernations)
      {
        FrameFitsLower(buf, displayWidth, displayHeight, y + 1);
        CopyRow(buffer, panel, y);
        DrawnStep(before, buf, displayWidth, y);
        y := y + 1;
      }
    }

    /** The inner loop: row y, left to right. */
    method CopyRow(buffer: array<byte>, panel: Panel, y: nat)
      requires FrameFits(buffer[..], displayWidth, y + 1)
      modifies panel
      ensures panel.drawn == old(panel.drawn) + RowPrefix(buffer[..], y, displayWidth, displayWidth)
      ensures panel.hibernations == old(panel.hibernations)
    {
      var x: nat := 0;
      while x < displayWidth
        invariant x <= displayWidth
        invariant panel.drawn == old(panel.drawn) + RowPrefix(buffer[..], y, x, displayWidth)
        invariant panel.hibernations == old(panel.hibernations)
      {
        PixelFits(buffer[..], x, y, displayWidth, y + 1);
        PixelIndexFormula(x, y, displayWidth);
        var b := buffer[x + (y / 8) * displayWidth];
        panel.DrawPixel(x, y, BitSet(b, y % 8));
        x := x + 1;
      }
    }

    /** `display`: the periodic redraw, only once something has been drawn, at most every five minutes. */
    method Display(now: u32)
      requires Valid()
      modifies this`lastDrawMsec, panel
      ensures old(lastDrawMsec) == 0 ==> lastDrawMsec == 0 && (panel != null ==> unchanged(panel))
      ensures old(lastDrawMsec) != 0 && old(MayDraw(SlowUpdateMsec, now)) ==>
        panel != null && buffer != null && lastDrawMsec == now
        && panel.drawn == old(panel.drawn) + Frame(buffer[..], displayWidth, displayHeight)
        && panel.hibernations == old(panel.hibernations) + 1
      ensures old(lastDrawMsec) != 0 && !old(MayDraw(SlowUpdateMsec, now)) ==>
        lastDrawMsec == old(lastDrawMsec) && (panel != null ==> unchanged(panel))
    {
      if lastDrawMsec != 0 {
        var _ := ForceDisplay(SlowUpdateMsec, now);
      }
    }
  }
}
