/** CPU colour conversion to NV12: `rgsp-cedar/src/convert.rs`. Arithmetic right shift is
    floor division, which is what `/` is for the positive divisors used here. */
module Nv12 {
  import opened Common
  import Grid

  function Clamp8(v: int): Byte {
    if v < 0 then 0 else if v > 255 then 255 else v
  }

  function RawY(r: int, g: int, b: int): int { (66 * r + 129 * g + 25 * b + 128) / 256 + 16 }

  function RawU(r: int, g: int, b: int): int { (-38 * r - 74 * g + 112 * b + 128) / 256 + 128 }

  function RawV(r: int, g: int, b: int): int { (112 * r - 94 * g - 18 * b + 128) / 256 + 128 }

  function RgbY(r: int, g: int, b: int): Byte { Clamp8(RawY(r, g, b)) }

  function RgbU(r: int, g: int, b: int): Byte { Clamp8(RawU(r, g, b)) }

  function RgbV(r: int, g: int, b: int): Byte { Clamp8(RawV(r, g, b)) }

  /** On 8-bit channels the formulas stay in the limited range, so the clamp never
      fires; and each end of each range is reached. */
  lemma LimitedRange(r: int, g: int, b: int)
    requires 0 <= r <= 255 && 0 <= g <= 255 && 0 <= b <= 255
    ensures 16 <= RgbY(r, g, b) == RawY(r, g, b) <= 235
    ensures 16 <= RgbU(r, g, b) == RawU(r, g, b) <= 240
    ensures 16 <= RgbV(r, g, b) == RawV(r, g, b) <= 240
    ensures RgbY(0, 0, 0) == 16 && RgbY(255, 255, 255) == 235
    ensures RgbU(255, 255, 0) == 16 && RgbU(0, 0, 255) == 240
    ensures RgbV(0, 255, 255) == 16 && RgbV(255, 0, 0) == 240
  {
  }

  /** Within one of ITU-R BT.601, limited range, for channels of 0 to 255, in units of
      1/255000: 65.481, 128.553 and 24.966 over 255 for luma, and so on. */
  predicate LumaOf(v: int, r: int, g: int, b: int) {
    -255_000 < 255_000 * (v - 16) - (65_481 * r + 128_553 * g + 24_966 * b) < 255_000
  }

  predicate BlueDifferenceOf(v: int, r: int, g: int, b: int) {
    -255_000 < 255_000 * (v - 128) - (112_000 * b - 37_797 * r - 74_203 * g) < 255_000
  }

  predicate RedDifferenceOf(v: int, r: int, g: int, b: int) {
    -255_000 < 255_000 * (v - 128) - (112_000 * r - 93_786 * g - 18_214 * b) < 255_000
  }

  /** The integer formulas are the standard's matrix, to within one. */
  lemma NearBt601(r: int, g: int, b: int)
    requires 0 <= r <= 255 && 0 <= g <= 255 && 0 <= b <= 255
    ensures LumaOf(RgbY(r, g, b), r, g, b)
    ensures BlueDifferenceOf(RgbU(r, g, b), r, g, b) && RedDifferenceOf(RgbV(r, g, b), r, g, b)
  {
    LimitedRange(r, g, b);
  }

  /** A row of chroma bytes: whole pairs. */
  function Edge(w: nat): nat { w + w % 2 }

  function Average(a: int, b: int, c: int, d: int): int { (a + b + c + d) / 4 }

  datatype Format = Bgra | Rgb565 {
    function PixelBytes(): nat { if Bgra? then 4 else 2 }

    /** The bytes of a pixel that are looked at: alpha never is. */
    function ReadBytes(): nat { if Bgra? then 3 else 2 }
  }

  /** How far into a row its reads reach. */
  function LastRead(format: Format, w: nat): nat
    requires w > 0
  {
    (w - 1) * format.PixelBytes() + format.ReadBytes()
  }

  /** A framebuffer image: `w` by `h` pixels, `pitch` bytes a row. */
  datatype Image = Image(format: Format, src: seq<Byte>, pitch: nat, w: nat, h: nat) {

    /** What is read of the last pixel of the last row lies inside the buffer. */
    predicate Covered() {
      w > 0 && h > 0 ==> Grid.At(h - 1, pitch) + LastRead(format, w) <= |src|
    }

    lemma PixelInside(y: nat, x: nat)
      requires Covered() && y < h && x < w
      ensures Grid.At(y, pitch) + x * format.PixelBytes() + format.ReadBytes() <= |src|
    {
      Grid.AtMonotone(y, h - 1, pitch);
    }

    function Word(y: nat, x: nat): nat
      requires Covered() && y < h && x < w && format.Rgb565?
    {
      PixelInside(y, x);
      ReadWord(src, Grid.At(y, pitch) + x * 2)
    }

    function Red(y: nat, x: nat): int
      requires Covered() && y < h && x < w
    {
      PixelInside(y, x);
      if format.Bgra? then src[Grid.At(y, pitch) + x * 4 + 2] else R565(Word(y, x))
    }

    function Green(y: nat, x: nat): int
      requires Covered() && y < h && x < w
    {
      PixelInside(y, x);
      if format.Bgra? then src[Grid.At(y, pitch) + x * 4 + 1] else G565(Word(y, x))
    }

    function Blue(y: nat, x: nat): int
      requires Covered() && y < h && x < w
    {
      PixelInside(y, x);
      if format.Bgra? then src[Grid.At(y, pitch) + x * 4] else B565(Word(y, x))
    }

    function Luma(y: nat, x: nat): Byte
      requires Covered() && y < h && x < w
    {
      RgbY(Red(y, x), Green(y, x), Blue(y, x))
    }

    /** Byte c of chroma row r: U then V of the averaged 2x2 block at (2r, c). At an odd
        edge the last row or column stands in for the missing one, and an odd width leaves
        a V one byte past the row. */
    function Chroma(r: nat, c: nat): Byte
      requires Covered() && 2 * r < h && c < Edge(w)
    {
      BlockByte(2 * r, c - c % 2, c % 2 == 1)
    }

    /** U or V of the block at (y, x). */
    function BlockByte(y: nat, x: nat, v: bool): Byte
      requires Covered() && y < h && x < w
    {
      if v then RgbV(BlockRed(y, x), BlockGreen(y, x), BlockBlue(y, x))
      else RgbU(BlockRed(y, x), BlockGreen(y, x), BlockBlue(y, x))
    }

    function ChromaRows(): nat { (h + 1) / 2 }

    function ChromaBytes(): nat { ChromaSize(w, h) }

    /** Byte i of the luma plane. */
    function LumaAt(i: nat): Byte
      requires Covered() && i < Grid.At(h, w)
    {
      Grid.Recompose(i, w);
      Grid.RowOfIndex(i, h, w);
      Luma(Grid.Row(i, w), Grid.Col(i, w))
    }

    /** Byte i of the interleaved chroma plane: each row's extra V is overwritten by the
        next row, the last one's stays. */
    function ChromaAt(i: nat): Byte
      requires Covered() && i < ChromaBytes()
    {
      if i == Grid.At(ChromaRows(), w) then Chroma(ChromaRows() - 1, w)
      else
        Grid.Recompose(i, w);
        Grid.RowOfIndex(i, ChromaRows(), w);
        Chroma(Grid.Row(i, w), Grid.Col(i, w))
    }

    lemma LumaAtPixel(y: nat, x: nat)
      requires Covered() && y < h && x < w
      ensures Grid.At(y, w) + x < Grid.At(h, w) && LumaAt(Grid.At(y, w) + x) == Luma(y, x)
    {
      Grid.RowInside(y, h, w);
      Grid.RowCol(y, x, w);
    }

    lemma ChromaAtBlock(r: nat, c: nat)
      requires Covered() && 2 * r < h && c < w
      ensures Grid.At(r, w) + c < Grid.At(ChromaRows(), w) && ChromaAt(Grid.At(r, w) + c) == Chroma(r, c)
    {
      hide Image.Chroma;
      Grid.RowInside(r, ChromaRows(), w);
      Grid.RowCol(r, c, w);
    }

    /** The row or column after this one, or itself at the edge. */
    function Next(k: nat, n: nat): nat { if k + 1 < n then k + 1 else k }

    function BlockRed(y: nat, x: nat): int
      requires Covered() && y < h && x < w
    {
      Average(Red(y, x), Red(y, Next(x, w)), Red(Next(y, h), x), Red(Next(y, h), Next(x, w)))
    }

    function BlockGreen(y: nat, x: nat): int
      requires Covered() && y < h && x < w
    {
      Average(Green(y, x), Green(y, Next(x, w)), Green(Next(y, h), x), Green(Next(y, h), Next(x, w)))
    }

    function BlockBlue(y: nat, x: nat): int
      requires Covered() && y < h && x < w
    {
      Average(Blue(y, x), Blue(y, Next(x, w)), Blue(Next(y, h), x), Blue(Next(y, h), Next(x, w)))
    }

    /** The two bytes of a block. */
    lemma ChromaOfBlock(y: nat, x: nat)
      requires Covered() && y % 2 == 0 && x % 2 == 0 && y < h && x < w
      ensures x + 1 < Edge(w)
      ensures Chroma(y / 2, x) == RgbU(BlockRed(y, x), BlockGreen(y, x), BlockBlue(y, x))
      ensures Chroma(y / 2, x + 1) == RgbV(BlockRed(y, x), BlockGreen(y, x), BlockBlue(y, x))
    {
      hide BlockRed, BlockGreen, BlockBlue, RgbU, RgbV;
      assert 2 * (y / 2) == y && (x + 1) - (x + 1) % 2 == x;
    }

    /** Row r ends inside the plane. */
    lemma RowsEnd(r: nat)
      requires 2 * r < h && w > 0
      ensures r < ChromaRows() && RowEnd(r, w) <= ChromaBytes()
    {
      Grid.RowInside(r, ChromaRows(), w);
    }

    /** The plane after the first `rows` rows: the last one's extra V, of an odd width,
        stands where the next row will begin. */
    ghost predicate RowsDone(rows: nat, now: seq<Byte>, was: seq<Byte>)
      requires Covered() && w > 0 && |now| == |was| >= ChromaBytes() && rows <= ChromaRows()
    {
      forall i: nat | i < |now| ::
        now[i] == if i < Grid.At(rows, w) then RowByte(i, rows)
                  else if i == Grid.At(rows, w) && w % 2 == 1 && rows > 0 then Chroma(rows - 1, w)
                  else was[i]
    }

    function RowByte(i: nat, rows: nat): Byte
      requires Covered() && w > 0 && rows <= ChromaRows() && i < Grid.At(rows, w)
    {
      Grid.Recompose(i, w);
      Grid.RowOfIndex(i, rows, w);
      Chroma(Grid.Row(i, w), Grid.Col(i, w))
    }

    /** Row r up to its first x bytes. */
    ghost predicate RowWritten(r: nat, x: nat, now: seq<Byte>, was: seq<Byte>)
      requires Covered() && 2 * r < h && x <= Edge(w) && |now| == |was|
    {
      forall i: nat | i < |now| ::
        now[i] == if Grid.At(r, w) <= i < Grid.At(r, w) + x then Chroma(r, i - Grid.At(r, w)) else was[i]
    }

    lemma NothingWritten(r: nat, was: seq<Byte>)
      requires Covered() && 2 * r < h
      ensures RowWritten(r, 0, was, was)
    {
    }

    lemma TwoMoreBytes(y: nat, x: nat, before: seq<Byte>, now: seq<Byte>, was: seq<Byte>)
      requires Covered() && y < h && y % 2 == 0 && x < w && Column(x, w) && |now| == |before| == |was|
      requires Grid.At(y / 2, w) + x + 1 < |before| && RowWritten(y / 2, x, before, was)
      requires var u := RgbU(BlockRed(y, x), BlockGreen(y, x), BlockBlue(y, x));
               var v := RgbV(BlockRed(y, x), BlockGreen(y, x), BlockBlue(y, x));
               now == before[Grid.At(y / 2, w) + x := u][Grid.At(y / 2, w) + x + 1 := v]
      ensures x + 2 <= Edge(w) && RowWritten(y / 2, x + 2, now, was)
    {
      hide Image.Chroma, Image.BlockRed, Image.BlockGreen, Image.BlockBlue, RgbU, RgbV, Grid.At;
      ChromaOfBlock(y, x);
    }

    lemma OneMoreRow(r: nat, before: seq<Byte>, now: seq<Byte>, was: seq<Byte>)
      requires Covered() && w > 0 && 2 * r < h && |now| == |before| == |was| >= ChromaBytes()
      requires RowsDone(r, before, was) && RowWritten(r, Edge(w), now, before)
      ensures r + 1 <= ChromaRows() && RowsDone(r + 1, now, was)
    {
      hide Image.Chroma, Grid.At;
      Grid.AtStep(r, w);
      forall i: nat | i < |now| && i < Grid.At(r + 1, w) ensures now[i] == RowByte(i, r + 1) {
        if i >= Grid.At(r, w) {
          Grid.RowCol(r, i - Grid.At(r, w), w);
        } else {
          assert now[i] == before[i] == RowByte(i, r);
        }
      }
    }

    lemma AllRows(now: seq<Byte>, was: seq<Byte>)
      requires Covered() && w > 0 && h > 0 && |now| == |was| >= ChromaBytes() && RowsDone(ChromaRows(), now, was)
      ensures forall i: nat | i < |now| :: now[i] == if i < ChromaBytes() then ChromaAt(i) else was[i]
    {
      hide Image.Chroma, Grid.At;
    }

    /** Both planes stay in the limited range, for both formats. */
    lemma LumaInRange(y: nat, x: nat)
      requires Covered() && y < h && x < w
      ensures 16 <= Luma(y, x) <= 235
    {
      ChannelsInRange(y, x);
      LimitedRange(Red(y, x), Green(y, x), Blue(y, x));
    }

    lemma ChromaInRange(r: nat, c: nat)
      requires Covered() && 2 * r < h && c < Edge(w)
      ensures 16 <= Chroma(r, c) <= 240
    {
      hide Image.BlockByte;
      BlockByteInRange(2 * r, c - c % 2, c % 2 == 1);
    }

    lemma BlockByteInRange(y: nat, x: nat, v: bool)
      requires Covered() && y < h && x < w
      ensures 16 <= BlockByte(y, x, v) <= 240
    {
      BlockInRange(y, x);
      hide BlockRed, BlockGreen, BlockBlue, RgbY, RgbU, RgbV, RawY, RawU, RawV;
      LimitedRange(BlockRed(y, x), BlockGreen(y, x), BlockBlue(y, x));
    }

    lemma BlockInRange(y: nat, x: nat)
      requires Covered() && y < h && x < w
      ensures 0 <= BlockRed(y, x) <= 255 && 0 <= BlockGreen(y, x) <= 255 && 0 <= BlockBlue(y, x) <= 255
    {
      ChannelsInRange(y, x);
      ChannelsInRange(y, Next(x, w));
      ChannelsInRange(Next(y, h), x);
      ChannelsInRange(Next(y, h), Next(x, w));
      hide Red, Green, Blue;
    }

    /** Red, green and blue of a pixel, by its bytes: blue, green, red and alpha in turn, or
        a little-endian word of five, six and five bits, each moved up to eight. */
    function Pixel(y: nat, x: nat): (int, int, int)
      requires Covered() && y < h && x < w
    {
      PixelInside(y, x);
      if format.Bgra? then
        var at := Grid.At(y, pitch) + x * 4;
        (src[at + 2] as int, src[at + 1] as int, src[at] as int)
      else
        var at := Grid.At(y, pitch) + x * 2;
        var word := src[at] as int + 256 * src[at + 1] as int;
        (word / 0x800 * 8, word / 0x20 % 0x40 * 4, word % 0x20 * 8)
    }

    lemma PixelIs(y: nat, x: nat)
      requires Covered() && y < h && x < w
      ensures Pixel(y, x) == (Red(y, x), Green(y, x), Blue(y, x))
    {
      PixelInside(y, x);
      if format.Rgb565? {
        WordFields(Word(y, x));
      }
      hide Grid.At, R565, G565, B565;
    }

    /** The channel means of the block at (y, x), rounded down; at an odd edge the last row
        or column counts twice. */
    function Mean(y: nat, x: nat): (int, int, int)
      requires Covered() && y < h && x < w
    {
      var y1, x1 := if y + 1 == h then y else y + 1, if x + 1 == w then x else x + 1;
      var p, q, t, u := Pixel(y, x), Pixel(y, x1), Pixel(y1, x), Pixel(y1, x1);
      ((p.0 + q.0 + t.0 + u.0) / 4, (p.1 + q.1 + t.1 + u.1) / 4, (p.2 + q.2 + t.2 + u.2) / 4)
    }

    lemma MeanIs(y: nat, x: nat)
      requires Covered() && y < h && x < w
      ensures Mean(y, x) == (BlockRed(y, x), BlockGreen(y, x), BlockBlue(y, x))
    {
      PixelIs(y, x);
      PixelIs(y, Next(x, w));
      PixelIs(Next(y, h), x);
      PixelIs(Next(y, h), Next(x, w));
      hide Red, Green, Blue, Pixel;
    }

    /** Luma of a pixel. */
    lemma LumaOfPixel(y: nat, x: nat)
      requires Covered() && y < h && x < w
      ensures var p := Pixel(y, x); LumaOf(Luma(y, x), p.0, p.1, p.2)
    {
      PixelIs(y, x);
      ChannelsInRange(y, x);
      hide Red, Green, Blue, Pixel, LumaOf, RgbY;
      NearBt601(Red(y, x), Green(y, x), Blue(y, x));
    }

    /** Blue and red difference of a block, of its four pixels' channel means. */
    lemma ChromaOfPixels(y: nat, x: nat)
      requires Covered() && y < h && x < w
      ensures var p := Mean(y, x);
              && BlueDifferenceOf(BlockByte(y, x, false), p.0, p.1, p.2)
              && RedDifferenceOf(BlockByte(y, x, true), p.0, p.1, p.2)
    {
      MeanIs(y, x);
      BlockInRange(y, x);
      hide Mean, BlockRed, BlockGreen, BlockBlue, BlueDifferenceOf, RedDifferenceOf, RgbU, RgbV;
      NearBt601(BlockRed(y, x), BlockGreen(y, x), BlockBlue(y, x));
    }

    lemma ChannelsInRange(y: nat, x: nat)
      requires Covered() && y < h && x < w
      ensures 0 <= Red(y, x) <= 255 && 0 <= Green(y, x) <= 255 && 0 <= Blue(y, x) <= 255
    {
      PixelInside(y, x);
      if format.Rgb565? {
        WordInRange(Word(y, x));
      }
      hide R565, G565, B565, ReadWord, Grid.At;
    }
  }

  function R565(p: nat): int { p / 2048 % 32 * 8 }

  function G565(p: nat): int { p / 32 % 64 * 4 }

  function B565(p: nat): int { p % 32 * 8 }

  lemma WordFields(p: nat)
    requires p < 0x1_0000
    ensures R565(p) == p / 0x800 * 8 && G565(p) == p / 0x20 % 0x40 * 4 && B565(p) == p % 0x20 * 8
  {
    assert p / 2048 % 32 == p / 2048;
  }

  lemma WordInRange(p: nat)
    ensures 0 <= R565(p) <= 255 && 0 <= G565(p) <= 255 && 0 <= B565(p) <= 255
  {
  }

  // ---------------------------------------------------------------- the loops

  /** The bytes the chroma loops write. */
  function ChromaSize(w: nat, h: nat): nat {
    if w == 0 || h == 0 then 0 else Grid.At((h + 1) / 2, w) + w % 2
  }

  /** Without padding the chroma plane is asked for half the luma plane, and holds what the
      loops write exactly for even dimensions. */
  lemma ChromaFitsExactly(w: nat, h: nat)
    requires w > 0 && h > 0
    ensures ChromaSize(w, h) <= Grid.At(h, w) / 2 <==> w % 2 == 0 && h % 2 == 0
  {
    var k := h / 2;
    Grid.AtSum(k, k, w);
    if h % 2 == 0 {
      assert h == k + k && (h + 1) / 2 == k;
    } else {
      assert h == (k + k) + 1 && (h + 1) / 2 == k + 1;
      Grid.AtStep(k + k, w);
      Grid.AtStep(k, w);
    }
    hide Grid.At;
  }

  /** With a whole panel buffer, no pixel read leaves it exactly when a row's reads fit its
      pitch. */
  lemma CoveredExactly(m: Image)
    requires |m.src| == Grid.At(m.h, m.pitch)
    ensures m.Covered() <==> m.w == 0 || m.h == 0 || LastRead(m.format, m.w) <= m.pitch
  {
    if m.h > 0 {
      Grid.AtStep(m.h - 1, m.pitch);
    }
    hide Grid.At;
  }

  /** Checkable at open: both planes can be sized in u32, the reads of a row fit its pitch,
      and what the loops write fits the planes. */
  predicate FitsIn(format: Format, w: nat, h: nat, pitch: nat, area: nat) {
    && area < U32_LIMIT
    && (w > 0 && h > 0 ==>
          LastRead(format, w) <= pitch && Grid.At(h, w) <= area && ChromaSize(w, h) <= area / 2)
  }

  // the accesses of a frame, against the buffers of a surface of `area` pixels

  predicate ReadInside(format: Format, h: nat, pitch: nat, y: nat, x: nat) {
    Grid.At(y, pitch) + x * format.PixelBytes() + format.ReadBytes() <= Grid.At(h, pitch)
  }

  predicate LumaInside(w: nat, area: nat, y: nat, x: nat) {
    Grid.At(y, w) + x < area
  }

  predicate ChromaInside(w: nat, area: nat, r: nat, k: nat) {
    Grid.At(r, w) + 2 * k + 1 < area / 2
  }

  /** The slices taken over the engine's planes lie inside them, every pixel read inside the
      panel buffer, and every byte written inside its slice: luma byte (y, x), and the pair
      of block k of chroma row r. */
  ghost predicate FrameInside(format: Format, w: nat, h: nat, pitch: nat, area: nat) {
    && area <= area % U32_LIMIT && area / 2 <= area % U32_LIMIT / 2
    && (forall y: nat, x: nat | y < h && x < w :: ReadInside(format, h, pitch, y, x))
    && (forall y: nat, x: nat | y < h && x < w :: LumaInside(w, area, y, x))
    && (forall r: nat, k: nat | 2 * r < h && 2 * k < w :: ChromaInside(w, area, r, k))
  }

  lemma FrameInsideExactly(format: Format, w: nat, h: nat, pitch: nat, area: nat)
    ensures FrameInside(format, w, h, pitch, area) <==> FitsIn(format, w, h, pitch, area)
  {
    if w > 0 && h > 0 {
      ReadsExactly(format, w, h, pitch);
      LumaExactly(w, h, area);
      ChromaExactly(w, h, area);
    }
    hide ReadInside, LumaInside, ChromaInside, Grid.At, ChromaSize;
  }

  lemma ReadsExactly(format: Format, w: nat, h: nat, pitch: nat)
    requires w > 0 && h > 0
    ensures (forall y: nat, x: nat | y < h && x < w :: ReadInside(format, h, pitch, y, x)) <==> LastRead(format, w) <= pitch
  {
    Grid.AtStep(h - 1, pitch);
    if LastRead(format, w) <= pitch {
      forall y: nat, x: nat | y < h && x < w ensures ReadInside(format, h, pitch, y, x) {
        Grid.RowInside(y, h, pitch);
        Scale(x, w - 1, format.PixelBytes());
      }
    } else {
      hide Grid.At;
      assert !ReadInside(format, h, pitch, h - 1, w - 1);
    }
  }

  lemma LumaExactly(w: nat, h: nat, area: nat)
    requires w > 0 && h > 0
    ensures (forall y: nat, x: nat | y < h && x < w :: LumaInside(w, area, y, x)) <==> Grid.At(h, w) <= area
  {
    Grid.AtStep(h - 1, w);
    hide Grid.At;
    if Grid.At(h, w) <= area {
      forall y: nat, x: nat | y < h && x < w ensures LumaInside(w, area, y, x) {
        Grid.RowInside(y, h, w);
      }
    } else {
      assert !LumaInside(w, area, h - 1, w - 1);
    }
  }

  lemma ChromaExactly(w: nat, h: nat, area: nat)
    requires w > 0 && h > 0
    ensures (forall r: nat, k: nat | 2 * r < h && 2 * k < w :: ChromaInside(w, area, r, k)) <==> ChromaSize(w, h) <= area / 2
  {
    var rows, blocks := (h + 1) / 2, (w + 1) / 2;
    assert 2 * (rows - 1) < h && 2 * (blocks - 1) < w && 2 * blocks == w + w % 2;
    Grid.AtStep(rows - 1, w);
    hide Grid.At;
    if ChromaSize(w, h) <= area / 2 {
      forall r: nat, k: nat | 2 * r < h && 2 * k < w ensures ChromaInside(w, area, r, k) {
        assert r < rows && 2 * k + 2 <= w + w % 2;
        Grid.RowInside(r, rows, w);
      }
    } else {
      assert !ChromaInside(w, area, rows - 1, blocks - 1);
    }
  }

  /** Unpadded, that is reads that fit the pitch, and even dimensions. */
  lemma UnpaddedFitsExactly(format: Format, w: nat, h: nat, pitch: nat)
    requires w > 0 && h > 0
    ensures FitsIn(format, w, h, pitch, Grid.At(h, w))
       <==> Grid.At(h, w) < U32_LIMIT && LastRead(format, w) <= pitch && w % 2 == 0 && h % 2 == 0
  {
    hide Grid.At, ChromaSize, LastRead;
    ChromaFitsExactly(w, h);
  }

  /** What the loops leave in the two planes. */
  function LumaPlane(m: Image): seq<Byte>
    requires m.Covered()
  {
    seq(Grid.At(m.h, m.w), i requires 0 <= i < Grid.At(m.h, m.w) => m.LumaAt(i))
  }

  function ChromaPlane(m: Image): seq<Byte>
    requires m.Covered()
  {
    seq(m.ChromaBytes(), i requires 0 <= i < m.ChromaBytes() => m.ChromaAt(i))
  }

  /** The planes are exactly the per-pixel and per-block formulas. */
  ghost predicate Planes(m: Image, luma: seq<Byte>, chroma: seq<Byte>)
    requires m.Covered() && |luma| >= Grid.At(m.h, m.w) && |chroma| >= m.ChromaBytes()
  {
    luma[..Grid.At(m.h, m.w)] == LumaPlane(m) && chroma[..m.ChromaBytes()] == ChromaPlane(m)
  }

  /** The luma of every pixel stands at its place, the standard's to within one. */
  lemma LumaPlaneShows(m: Image, luma: seq<Byte>, y: nat, x: nat)
    requires m.Covered() && |luma| >= Grid.At(m.h, m.w) && luma[..Grid.At(m.h, m.w)] == LumaPlane(m)
    requires y < m.h && x < m.w
    ensures Grid.At(y, m.w) + x < |luma|
    ensures var p := m.Pixel(y, x); LumaOf(luma[Grid.At(y, m.w) + x], p.0, p.1, p.2)
  {
    m.LumaAtPixel(y, x);
    m.LumaOfPixel(y, x);
    hide Grid.At, LumaOf, Image.Luma, Image.LumaAt, Image.Pixel;
    PlaneByte(m, luma, Grid.At(y, m.w) + x);
  }

  /** So do the two differences of every block, side by side, blue first, as far as the row
      goes. */
  lemma ChromaPlaneShows(m: Image, chroma: seq<Byte>, r: nat, x: nat)
    requires m.Covered() && |chroma| >= m.ChromaBytes() && chroma[..m.ChromaBytes()] == ChromaPlane(m)
    requires x % 2 == 0 && 2 * r < m.h && x < m.w
    ensures var p, at := m.Mean(2 * r, x), Grid.At(r, m.w) + x;
            && at < |chroma| && BlueDifferenceOf(chroma[at], p.0, p.1, p.2)
            && (x + 1 < m.w ==> at + 1 < |chroma| && RedDifferenceOf(chroma[at + 1], p.0, p.1, p.2))
  {
    hide *;
    ChromaByte(m, chroma, r, x, false);
    if x + 1 < m.w {
      ChromaByte(m, chroma, r, x, true);
    }
    m.ChromaOfPixels(2 * r, x);
  }

  lemma PlaneByte(m: Image, luma: seq<Byte>, i: nat)
    requires m.Covered() && |luma| >= Grid.At(m.h, m.w) && luma[..Grid.At(m.h, m.w)] == LumaPlane(m)
    requires i < Grid.At(m.h, m.w)
    ensures luma[i] == m.LumaAt(i)
  {
    hide Image.LumaAt, Grid.At;
    assert luma[i] == luma[..Grid.At(m.h, m.w)][i];
  }

  lemma ChromaByte(m: Image, chroma: seq<Byte>, r: nat, x: nat, v: bool)
    requires m.Covered() && |chroma| >= m.ChromaBytes() && chroma[..m.ChromaBytes()] == ChromaPlane(m)
    requires x % 2 == 0 && 2 * r < m.h && x + (if v then 1 else 0) < m.w
    ensures var at := Grid.At(r, m.w) + x + if v then 1 else 0;
            at < m.ChromaBytes() && chroma[at] == m.BlockByte(2 * r, x, v)
  {
    hide Image.BlockByte, Image.ChromaAt, Grid.At;
    var c := x + if v then 1 else 0;
    m.ChromaAtBlock(r, c);
    m.RowsEnd(r);
    assert c - c % 2 == x && (c % 2 == 1) == v;
    assert chroma[Grid.At(r, m.w) + c] == chroma[..m.ChromaBytes()][Grid.At(r, m.w) + c];
  }

  /** One past the last byte a chroma row writes. */
  function RowEnd(r: nat, w: nat): nat {
    Grid.At(r, w) + Edge(w)
  }

  /** Where the chroma loop's column can be. */
  predicate Column(x: nat, w: nat) {
    x <= Edge(w) && x % 2 == 0
  }

  lemma Columns(x: nat, w: nat)
    ensures Column(0, w)
    ensures Column(x, w) && x < w ==> x + 1 < Edge(w) && Column(x + 2, w)
    ensures Column(x, w) && x >= w ==> x == Edge(w)
    ensures Column(x, w) ==> x <= Edge(w)
  {
  }

  predicate InRow(i: nat, y: nat, w: nat) {
    Grid.At(y, w) <= i < Grid.At(y, w) + w
  }

  function ReadWord(src: seq<Byte>, at: nat): nat
    requires at + 2 <= |src|
  {
    src[at] as int + src[at + 1] as int * 256
  }

  method BgraLumaRow(src: seq<Byte>, pitch: nat, w: nat, h: nat, y: nat, dy: array<Byte>)
    requires Image(Bgra, src, pitch, w, h).Covered() && y < h && dy.Length >= Grid.At(h, w)
    modifies dy
    ensures forall i: nat | i < dy.Length ::
              dy[i] == if InRow(i, y, w) && i < Grid.At(h, w) then Image(Bgra, src, pitch, w, h).LumaAt(i) else old(dy[i])
  {
    ghost var m := Image(Bgra, src, pitch, w, h);
    Grid.RowInside(y, h, w);
    for x := 0 to w
      invariant forall i: nat | i < dy.Length ::
                  dy[i] == if Grid.At(y, w) <= i < Grid.At(y, w) + x && i < Grid.At(h, w) then m.LumaAt(i) else old(dy[i])
    {
      m.PixelInside(y, x);
      m.LumaAtPixel(y, x);
      var at := Grid.At(y, pitch) + x * 4;
      var b, g, r := src[at], src[at + 1], src[at + 2];
      dy[Grid.At(y, w) + x] := RgbY(r, g, b);
    }
  }

  /** The averages of the block at (y, x). */
  method BgraBlock(src: seq<Byte>, pitch: nat, w: nat, h: nat, y: nat, x: nat) returns (r: int, g: int, b: int)
    requires Image(Bgra, src, pitch, w, h).Covered() && y < h && x < w
    ensures var m := Image(Bgra, src, pitch, w, h);
            r == m.BlockRed(y, x) && g == m.BlockGreen(y, x) && b == m.BlockBlue(y, x)
  {
    hide Average, Grid.At;
    ghost var m := Image(Bgra, src, pitch, w, h);
    var y1 := if y + 1 < h then y + 1 else y;
    var x1 := if x + 1 < w then x + 1 else x;
    m.PixelInside(y, x);
    m.PixelInside(y, x1);
    m.PixelInside(y1, x);
    m.PixelInside(y1, x1);
    var r0, r1 := Grid.At(y, pitch), Grid.At(y1, pitch);
    b := Average(src[r0 + x * 4], src[r0 + x1 * 4], src[r1 + x * 4], src[r1 + x1 * 4]);
    g := Average(src[r0 + x * 4 + 1], src[r0 + x1 * 4 + 1], src[r1 + x * 4 + 1], src[r1 + x1 * 4 + 1]);
    r := Average(src[r0 + x * 4 + 2], src[r0 + x1 * 4 + 2], src[r1 + x * 4 + 2], src[r1 + x1 * 4 + 2]);
  }

  method BgraChromaRow(src: seq<Byte>, pitch: nat, w: nat, h: nat, y: nat, duv: array<Byte>)
    requires y % 2 == 0 && y < h && w > 0
    requires Image(Bgra, src, pitch, w, h).Covered() && duv.Length >= Image(Bgra, src, pitch, w, h).ChromaBytes()
    modifies duv
    ensures 2 * (y / 2) < h && Image(Bgra, src, pitch, w, h).RowWritten(y / 2, Edge(w), duv[..], old(duv[..]))
  {
    ghost var m := Image(Bgra, src, pitch, w, h);
    m.RowsEnd(y / 2);
    hide Edge, Column, RgbU, RgbV, Grid.At;
    hide Image.Covered, Image.Chroma, Image.RowWritten, Image.BlockRed, Image.BlockGreen, Image.BlockBlue, Image.ChromaBytes;
    var row := Grid.At(y / 2, w);
    m.NothingWritten(y / 2, duv[..]);
    var x := 0;
    Columns(x, w);
    while x < w
      invariant Column(x, w) && x <= Edge(w)
      invariant m.RowWritten(y / 2, x, duv[..], old(duv[..]))
    {
      ghost var before := duv[..];
      var r, g, b := BgraBlock(src, pitch, w, h, y, x);
      Columns(x, w);
      duv[row + x] := RgbU(r, g, b);
      duv[row + x + 1] := RgbV(r, g, b);
      m.TwoMoreBytes(y, x, before, duv[..], old(duv[..]));
      x := x + 2;
      Columns(x, w);
    }
    Columns(x, w);
  }

  method BgraToNv12(src: seq<Byte>, pitch: nat, w: nat, h: nat, dy: array<Byte>, duv: array<Byte>)
    requires Image(Bgra, src, pitch, w, h).Covered()
    requires dy != duv && dy.Length >= Grid.At(h, w) && duv.Length >= Image(Bgra, src, pitch, w, h).ChromaBytes()
    modifies dy, duv
    ensures Planes(Image(Bgra, src, pitch, w, h), dy[..], duv[..])
    ensures dy[Grid.At(h, w)..] == old(dy[Grid.At(h, w)..])
    ensures var n := Image(Bgra, src, pitch, w, h).ChromaBytes(); duv[n..] == old(duv[n..])
  {
    ghost var m := Image(Bgra, src, pitch, w, h);
    hide Image.ChromaAt, Image.LumaAt, Grid.At;
    Grid.AtStep(0, w);
    for y := 0 to h
      modifies dy
      invariant forall i: nat | i < dy.Length ::
                  dy[i] == if i < Grid.At(y, w) && i < Grid.At(h, w) then m.LumaAt(i) else old(dy[i])
    {
      Grid.AtStep(y, w);
      Grid.RowInside(y, h, w);
      BgraLumaRow(src, pitch, w, h, y, dy);
    }
    if w > 0 && h > 0 {
      BgraChromaPlane(src, pitch, w, h, duv);
    }
  }

  method BgraChromaPlane(src: seq<Byte>, pitch: nat, w: nat, h: nat, duv: array<Byte>)
    requires Image(Bgra, src, pitch, w, h).Covered() && w > 0 && h > 0
    requires duv.Length >= Image(Bgra, src, pitch, w, h).ChromaBytes()
    modifies duv
    ensures forall i: nat | i < duv.Length ::
              duv[i] == if i < Image(Bgra, src, pitch, w, h).ChromaBytes() then Image(Bgra, src, pitch, w, h).ChromaAt(i)
                        else old(duv[i])
  {
    ghost var m := Image(Bgra, src, pitch, w, h);
    hide Image.Chroma, Grid.At;
    Grid.AtStep(0, w);
    var y := 0;
    while y < h
      invariant y <= h + h % 2 && y % 2 == 0
      invariant m.RowsDone(y / 2, duv[..], old(duv[..]))
    {
      m.RowsEnd(y / 2);
      ghost var before := duv[..];
      BgraChromaRow(src, pitch, w, h, y, duv);
      m.OneMoreRow(y / 2, before, duv[..], old(duv[..]));
      y := y + 2;
    }
    m.AllRows(duv[..], old(duv[..]));
  }

  method Rgb565LumaRow(src: seq<Byte>, pitch: nat, w: nat, h: nat, y: nat, dy: array<Byte>)
    requires Image(Rgb565, src, pitch, w, h).Covered() && y < h && dy.Length >= Grid.At(h, w)
    modifies dy
    ensures forall i: nat | i < dy.Length ::
              dy[i] == if InRow(i, y, w) && i < Grid.At(h, w) then Image(Rgb565, src, pitch, w, h).LumaAt(i) else old(dy[i])
  {
    ghost var m := Image(Rgb565, src, pitch, w, h);
    Grid.RowInside(y, h, w);
    for x := 0 to w
      invariant forall i: nat | i < dy.Length ::
                  dy[i] == if Grid.At(y, w) <= i < Grid.At(y, w) + x && i < Grid.At(h, w) then m.LumaAt(i) else old(dy[i])
    {
      m.PixelInside(y, x);
      m.LumaAtPixel(y, x);
      var p := ReadWord(src, Grid.At(y, pitch) + x * 2);
      dy[Grid.At(y, w) + x] := RgbY(R565(p), G565(p), B565(p));
    }
  }

  /** The averages of the block at (y, x). */
  method Rgb565Block(src: seq<Byte>, pitch: nat, w: nat, h: nat, y: nat, x: nat) returns (r: int, g: int, b: int)
    requires Image(Rgb565, src, pitch, w, h).Covered() && y < h && x < w
    ensures var m := Image(Rgb565, src, pitch, w, h);
            r == m.BlockRed(y, x) && g == m.BlockGreen(y, x) && b == m.BlockBlue(y, x)
  {
    hide Average, Grid.At, R565, G565, B565, ReadWord;
    ghost var m := Image(Rgb565, src, pitch, w, h);
    var y1 := if y + 1 < h then y + 1 else y;
    var x1 := if x + 1 < w then x + 1 else x;
    m.PixelInside(y, x);
    m.PixelInside(y, x1);
    m.PixelInside(y1, x);
    m.PixelInside(y1, x1);
    var p00, p01 := ReadWord(src, Grid.At(y, pitch) + x * 2), ReadWord(src, Grid.At(y, pitch) + x1 * 2);
    var p10, p11 := ReadWord(src, Grid.At(y1, pitch) + x * 2), ReadWord(src, Grid.At(y1, pitch) + x1 * 2);
    r := Average(R565(p00), R565(p01), R565(p10), R565(p11));
    g := Average(G565(p00), G565(p01), G565(p10), G565(p11));
    b := Average(B565(p00), B565(p01), B565(p10), B565(p11));
  }

  method Rgb565ChromaRow(src: seq<Byte>, pitch: nat, w: nat, h: nat, y: nat, duv: array<Byte>)
    requires y % 2 == 0 && y < h && w > 0
    requires Image(Rgb565, src, pitch, w, h).Covered() && duv.Length >= Image(Rgb565, src, pitch, w, h).ChromaBytes()
    modifies duv
    ensures 2 * (y / 2) < h && Image(Rgb565, src, pitch, w, h).RowWritten(y / 2, Edge(w), duv[..], old(duv[..]))
  {
    ghost var m := Image(Rgb565, src, pitch, w, h);
    m.RowsEnd(y / 2);
    hide Edge, Column, RgbU, RgbV, Grid.At;
    hide Image.Covered, Image.Chroma, Image.RowWritten, Image.BlockRed, Image.BlockGreen, Image.BlockBlue, Image.ChromaBytes;
    var row := Grid.At(y / 2, w);
    m.NothingWritten(y / 2, duv[..]);
    var x := 0;
    Columns(x, w);
    while x < w
      invariant Column(x, w) && x <= Edge(w)
      invariant m.RowWritten(y / 2, x, duv[..], old(duv[..]))
    {
      ghost var before := duv[..];
      var r, g, b := Rgb565Block(src, pitch, w, h, y, x);
      Columns(x, w);
      duv[row + x] := RgbU(r, g, b);
      duv[row + x + 1] := RgbV(r, g, b);
      m.TwoMoreBytes(y, x, before, duv[..], old(duv[..]));
      x := x + 2;
      Columns(x, w);
    }
    Columns(x, w);
  }

  method Rgb565ToNv12(src: seq<Byte>, pitch: nat, w: nat, h: nat, dy: array<Byte>, duv: array<Byte>)
    requires Image(Rgb565, src, pitch, w, h).Covered()
    requires dy != duv && dy.Length >= Grid.At(h, w) && duv.Length >= Image(Rgb565, src, pitch, w, h).ChromaBytes()
    modifies dy, duv
    ensures Planes(Image(Rgb565, src, pitch, w, h), dy[..], duv[..])
    ensures dy[Grid.At(h, w)..] == old(dy[Grid.At(h, w)..])
    ensures var n := Image(Rgb565, src, pitch, w, h).ChromaBytes(); duv[n..] == old(duv[n..])
  {
    ghost var m := Image(Rgb565, src, pitch, w, h);
    hide Image.ChromaAt, Image.LumaAt, Grid.At;
    Grid.AtStep(0, w);
    for y := 0 to h
      modifies dy
      invariant forall i: nat | i < dy.Length ::
                  dy[i] == if i < Grid.At(y, w) && i < Grid.At(h, w) then m.LumaAt(i) else old(dy[i])
    {
      Grid.AtStep(y, w);
      Grid.RowInside(y, h, w);
      Rgb565LumaRow(src, pitch, w, h, y, dy);
    }
    if w > 0 && h > 0 {
      Rgb565ChromaPlane(src, pitch, w, h, duv);
    }
  }

  method Rgb565ChromaPlane(src: seq<Byte>, pitch: nat, w: nat, h: nat, duv: array<Byte>)
    requires Image(Rgb565, src, pitch, w, h).Covered() && w > 0 && h > 0
    requires duv.Length >= Image(Rgb565, src, pitch, w, h).ChromaBytes()
    modifies duv
    ensures forall i: nat | i < duv.Length ::
              duv[i] == if i < Image(Rgb565, src, pitch, w, h).ChromaBytes() then Image(Rgb565, src, pitch, w, h).ChromaAt(i)
                        else old(duv[i])
  {
    ghost var m := Image(Rgb565, src, pitch, w, h);
    hide Image.Chroma, Grid.At;
    Grid.AtStep(0, w);
    var y := 0;
    while y < h
      invariant y <= h + h % 2 && y % 2 == 0
      invariant m.RowsDone(y / 2, duv[..], old(duv[..]))
    {
      m.RowsEnd(y / 2);
      ghost var before := duv[..];
      Rgb565ChromaRow(src, pitch, w, h, y, duv);
      m.OneMoreRow(y / 2, before, duv[..], old(duv[..]));
      y := y + 2;
    }
    m.AllRows(duv[..], old(duv[..]));
  }

}
