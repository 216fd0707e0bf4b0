/** The RGB half of `Capture::convert_into_input_buffer`: the panel image copied into the
    engine's one input buffer, with black bars around it when the surface is padded.

    The buffer is asked for in u32 arithmetic and written in usize arithmetic, through raw
    pointers. An access outside a buffer is an outcome here, not a precondition. */
module Surface {
  import opened Common
  import Geometry
  import Grid

  /** `usize` on the 64-bit device. */
  function USize(x: nat): nat {
    x % U64_LIMIT
  }

  /** Checkable at open: a row of pixels fits its pitch, the surface can be sized in u32,
      and its height has not wrapped; without bars, the panel buffer can be sized in u32. */
  predicate FitsIn(w: nat, h: nat, pitch: nat, box: Geometry.Pillarbox) {
    if box.padded then w * 4 <= pitch && Grid.At(box.padH, box.padW * 4) < U32_LIMIT && h <= box.padH
    else Grid.At(h, pitch) < U32_LIMIT
  }

  /** What the vendor is asked for: `pad_w * pad_h * 4` in u32. */
  function AllocFor(box: Geometry.Pillarbox): Geometry.U32 {
    Geometry.Wrap(Geometry.Wrap(Grid.At(box.padH, box.padW)) * 4)
  }

  /** A w*h panel of 4-byte pixels, `pitch` bytes a row, for a dstW*dstH target. */
  datatype Layout = Layout(
    w: Geometry.U32, h: Geometry.U32, pitch: Geometry.U32, dstW: Geometry.U32, dstH: Geometry.U32) {

    function Box(): Geometry.Pillarbox { Geometry.ForTarget(w, h, dstW, dstH) }

    /** What opening a capture lets through. */
    predicate Accepted() {
      !Box().padded ==> pitch == Geometry.Wrap(w * 4)
    }

    function RowBytes(): nat { w * 4 }

    function DstPitch(): nat { Box().padW * 4 }

    /** The surface, and where the image starts in it. */
    function Size(): nat { Grid.At(Box().padH, DstPitch()) }

    function Left(): nat { Box().padX * 4 }

    function Origin(): nat { Grid.At(Box().padY, DstPitch()) + Left() }

    function Alloc(): Geometry.U32 { AllocFor(Box()) }

    /** The panel buffer: `pitch * h` in usize, which cannot wrap. */
    function PanelBytes(): nat { Grid.At(h, pitch) }

    // where a frame's copies reach, against the two buffers

    predicate ClearInside() { USize(Size()) <= Alloc() }

    function RowFrom(y: nat): nat { USize(Grid.At(y, pitch)) }

    function RowTo(y: nat): nat { USize(Origin() + Grid.At(y, DstPitch())) }

    predicate RowInside(y: nat) {
      RowFrom(y) + RowBytes() <= PanelBytes() && RowTo(y) + RowBytes() <= Alloc()
    }

    /** Every clear and copy of a frame lies inside both buffers. */
    predicate FrameInside() {
      if Box().padded then ClearInside() && forall y: nat | y < h :: RowInside(y)
      else PanelBytes() <= Alloc()
    }

    predicate Fits() { FitsIn(w, h, pitch, Box()) }

    /** Byte x of surface row y shows the panel. */
    predicate InImage(y: nat, x: nat) {
      Box().padY <= y < Box().padY + h && Left() <= x < Left() + RowBytes()
    }
  }

  // ---------------------------------------------------------------- what fits

  lemma AllocIsSize(l: Layout)
    ensures l.Alloc() == l.Size() % U32_LIMIT
  {
    hide Grid.At, Geometry.ForTarget;
    FourTimes(l.Box().padH, l.Box().padW);
  }

  lemma FourTimes(rows: nat, cols: nat)
    ensures Grid.At(rows, cols * 4) == Grid.At(rows, cols) * 4
    ensures Geometry.Wrap(Geometry.Wrap(Grid.At(rows, cols)) * 4) == Grid.At(rows, cols * 4) % U32_LIMIT
  {
    assert Grid.At(rows, cols * 4) == Grid.At(rows, cols) * 4;
    hide Grid.At;
    FourWrapped(Grid.At(rows, cols));
  }

  lemma FourWrapped(x: nat)
    ensures (x % U32_LIMIT * 4) % U32_LIMIT == (x * 4) % U32_LIMIT
  {
  }

  /** Products of two u32 dimensions, four bytes a pixel on one side, stay in usize. */
  lemma AtInUSize(y: nat, rows: nat, pitch: nat)
    requires y <= rows < U32_LIMIT && pitch < U32_LIMIT
    ensures Grid.At(y, pitch) < U64_LIMIT && USize(Grid.At(y, pitch)) == Grid.At(y, pitch)
  {
    Scale(y, U32_LIMIT - 1, pitch);
    Scale(pitch, U32_LIMIT - 1, U32_LIMIT - 1);
  }

  /** Row reads stay in the panel buffer exactly when a row of pixels fits its pitch. */
  lemma ReadsInside(l: Layout)
    requires l.h > 0
    ensures (forall y: nat | y < l.h :: l.RowFrom(y) + l.RowBytes() <= l.PanelBytes()) <==> l.RowBytes() <= l.pitch
  {
    hide Grid.At, USize;
    if l.RowBytes() <= l.pitch {
      forall y: nat | y < l.h ensures l.RowFrom(y) + l.RowBytes() <= l.PanelBytes() {
        AtInUSize(y, l.h, l.pitch);
        Grid.RowInside(y, l.h, l.pitch);
      }
    } else {
      var last := l.h - 1;
      AtInUSize(last, l.h, l.pitch);
      Grid.AtStep(last, l.pitch);
      assert l.RowFrom(last) + l.RowBytes() > l.PanelBytes();
    }
  }

  /** When the condition holds, the image sits inside the surface and nothing wraps. */
  lemma FitsPlaces(l: Layout)
    requires l.Fits() && l.Box().padded
    ensures l.Box().padX + l.w <= l.Box().padW && l.Box().padY + l.h <= l.Box().padH
    ensures l.Alloc() == l.Size()
  {
    hide Grid.At, Geometry.ForTarget, Geometry.Product, Geometry.TargetHolds, AllocFor;
    AllocIsSize(l);
    PaddedTarget(l);
    Geometry.PillarboxShape(l.w, l.h, l.dstW, l.dstH);
    PlacedOrNot(l);
  }

  /** The image lies inside the surface for every target there is, unless the panel itself
      is within 15 of 2^32. */
  lemma ForTargetInside(l: Layout)
    requires l.w + 15 < U32_LIMIT && l.h + 15 < U32_LIMIT
    ensures l.Box().padX + l.w <= l.Box().padW && l.Box().padY + l.h <= l.Box().padH
  {
    if l.Box().padded {
      PaddedTarget(l);
      hide Geometry.ForTarget, Geometry.Product;
      Geometry.PillarboxShape(l.w, l.h, l.dstW, l.dstH);
    }
  }

  lemma PaddedTarget(l: Layout)
    requires l.Box().padded
    ensures l.dstW > 0 && l.dstH > 0
    ensures Geometry.Wider(l.w, l.h, l.dstW, l.dstH) || Geometry.Taller(l.w, l.h, l.dstW, l.dstH)
  {
  }

  /** The panel is held unless the grown height has wrapped to nothing. */
  lemma PlacedOrNot(l: Layout)
    requires l.Box().padded && l.RowBytes() <= l.pitch
    ensures var holds := l.dstW > 0 && l.dstH > 0 && Geometry.TargetHolds(l.w, l.h, l.dstW, l.dstH);
            && (l.h <= l.Box().padH <==> holds)
            && (!holds ==> l.Box().padH == 0 && l.w > 0)
  {
    hide Geometry.Product, Geometry.Want, Geometry.RoundU32, Geometry.Align16;
    PaddedTarget(l);
    if Geometry.Wider(l.w, l.h, l.dstW, l.dstH) {
      Geometry.RoundHolds(l.w, Geometry.Want(Geometry.Product(l.h, l.dstW), l.dstH));
    } else {
      Geometry.RoundHolds(l.h, Geometry.Want(Geometry.Product(l.w, l.dstH), l.dstW));
      TallerHasWidth(l);
    }
  }

  lemma TallerHasWidth(l: Layout)
    requires Geometry.Taller(l.w, l.h, l.dstW, l.dstH)
    ensures l.w > 0
  {
  }

  lemma WritesInside(l: Layout, y: nat)
    requires l.Fits() && l.Box().padded && y < l.h
    ensures l.RowTo(y) == l.Origin() + Grid.At(y, l.DstPitch())
    ensures l.RowTo(y) == Grid.At(l.Box().padY + y, l.DstPitch()) + l.Left()
    ensures l.RowTo(y) + l.RowBytes() <= l.Alloc()
  {
    hide Grid.At, Geometry.ForTarget;
    FitsPlaces(l);
    var d := l.DstPitch();
    Grid.AtSum(l.Box().padY, y, d);
    Grid.RowInside(l.Box().padY + y, l.Box().padH, d);
  }

  /** The surface too big for usize leaves its buffer at the second row. */
  lemma HugeSurface(l: Layout)
    requires l.Box().padded && l.RowBytes() <= l.pitch && l.Size() >= U64_LIMIT
    ensures l.h > 1 && !l.RowInside(1)
  {
    hide Grid.At, Geometry.Product, Geometry.RoundU32;
    PaddedTarget(l);
    var d := l.DstPitch();
    if Geometry.Wider(l.w, l.h, l.dstW, l.dstH) {
      WideEnough(l.h, d);
      Grid.AtStep(0, d);
      assert l.Origin() + d == l.Left() + d < U64_LIMIT;
      assert l.RowTo(1) == l.Left() + d >= U32_LIMIT;
    } else {
      AtInUSize(l.Box().padH, l.Box().padH, d);
    }
  }

  lemma WideEnough(rows: nat, d: nat)
    requires rows < U32_LIMIT && Grid.At(rows, d) >= U64_LIMIT && d < 4 * U32_LIMIT
    ensures d >= U32_LIMIT && rows > 1
  {
    if d < U32_LIMIT {
      Scale(rows, U32_LIMIT, d);
      Scale(d, U32_LIMIT - 1, U32_LIMIT);
    }
    if rows <= 1 {
      Scale(rows, 1, d);
    }
  }

  /** The guard at open and the copies it should protect: for every accepted panel and
      target, a frame stays inside both buffers if and only if the condition holds. */
  lemma FrameInsideExactly(l: Layout)
    requires l.Accepted() && l.h > 0
    ensures l.FrameInside() <==> l.Fits()
  {
    hide Grid.At, Geometry.ForTarget, USize;
    AllocIsSize(l);
    if l.Box().padded {
      ReadsInside(l);
      if l.FrameInside() {
        forall y: nat | y < l.h ensures l.RowFrom(y) + l.RowBytes() <= l.PanelBytes() {
          assert l.RowInside(y);
        }
      }
      if l.Fits() {
        PaddedFits(l);
      } else if l.RowBytes() <= l.pitch {
        PaddedDoesNotFit(l);
      }
    } else {
      UnpaddedAlloc(l);
    }
  }

  lemma PaddedFits(l: Layout)
    requires l.Fits() && l.Box().padded && l.h > 0
    ensures l.FrameInside()
  {
    hide Grid.At, Geometry.ForTarget;
    ReadsInside(l);
    FitsPlaces(l);
    forall y: nat | y < l.h ensures l.RowInside(y) {
      WritesInside(l, y);
    }
  }

  lemma PaddedDoesNotFit(l: Layout)
    requires l.Box().padded && l.RowBytes() <= l.pitch && !l.Fits() && l.h > 0
    ensures !l.FrameInside()
  {
    hide Grid.At, Geometry.ForTarget;
    AllocIsSize(l);
    PlacedOrNot(l);
    if l.Size() >= U64_LIMIT {
      HugeSurface(l);
    } else if l.Size() < U32_LIMIT {
      Grid.AtStep(0, l.DstPitch());
      assert l.Alloc() == 0 && !l.RowInside(0);
    }
  }

  /** Unpadded, the allocation is the panel buffer's size modulo 2^32. */
  lemma UnpaddedAlloc(l: Layout)
    requires l.Accepted() && !l.Box().padded
    ensures l.Alloc() == l.PanelBytes() % U32_LIMIT
    ensures l.Box().padW == l.w && l.Box().padH == l.h
  {
    AllocIsSize(l);
    Modular(l.h, l.w * 4);
  }

  lemma Modular(h: nat, row: nat)
    ensures Grid.At(h, row) % U32_LIMIT == Grid.At(h, row % U32_LIMIT) % U32_LIMIT
  {
    var k, r := row / U32_LIMIT, row % U32_LIMIT;
    assert row == k * U32_LIMIT + r;
    assert h * row == h * k * U32_LIMIT + h * r;
    AddMultiple(h * r, h * k);
  }

  lemma AddMultiple(x: nat, k: nat)
    ensures (k * U32_LIMIT + x) % U32_LIMIT == x % U32_LIMIT
  {
  }

  /** A target both sides of which are under 2^15, accepted, and more than u32 can size:
      the engine is asked for 610304 bytes of a surface of over 4 GB. */
  lemma WideTargetOutgrowsU32()
    ensures var l := Layout(720, 480, 2880, 4661, 1);
            l.Accepted() && l.Size() == 4_295_577_600 && l.Alloc() == 610_304 && !l.FrameInside()
  {
    var l := Layout(720, 480, 2880, 4661, 1);
    Sizes(l, 2_237_280, 2_237_280);
    FrameInsideExactly(l);
  }

  /** The surface of a widened 720x480 panel. */
  lemma Sizes(l: Layout, want: nat, padW: nat)
    requires l.w == 720 && l.h == 480 && l.dstW > 0 && l.dstH > 0
    requires Geometry.Wider(720, 480, l.dstW, l.dstH)
    requires Geometry.Want(Geometry.Product(480, l.dstW), l.dstH) == want
    requires padW % 16 == 0 && padW >= 720 && padW - 8 <= want < padW + 8 < U32_LIMIT - 8
    ensures l.Box() == Geometry.Pillarbox(padW, 480, (padW - 720) / 2, 0, true)
    ensures l.Size() == 1920 * padW && l.Alloc() == 1920 * padW % U32_LIMIT
  {
    hide Geometry.ForTarget, Grid.At;
    BoxIs(l, want, padW);
    AllocIsSize(l);
    RowsOf480(padW);
  }

  lemma BoxIs(l: Layout, want: nat, padW: nat)
    requires l.w == 720 && l.h == 480 && l.dstW > 0 && l.dstH > 0
    requires Geometry.Wider(720, 480, l.dstW, l.dstH)
    requires Geometry.Want(Geometry.Product(480, l.dstW), l.dstH) == want
    requires padW % 16 == 0 && padW >= 720 && padW - 8 <= want < padW + 8 < U32_LIMIT - 8
    ensures l.Box() == Geometry.Pillarbox(padW, 480, (padW - 720) / 2, 0, true)
  {
    hide Geometry.Want, Geometry.Product, Grid.At;
    NearestIs(want, padW);
    hide Geometry.RoundU32;
  }

  lemma NearestIs(want: nat, padW: nat)
    requires padW % 16 == 0 && padW >= 720 && padW - 8 <= want < padW + 8 < U32_LIMIT - 8
    ensures Geometry.RoundU32(720, want) == padW
  {
    Sixteens(want + 8, padW / 16);
    assert Geometry.Wrap(want) == want && Geometry.Wrap(want + 8) == want + 8;
    hide Geometry.Wrap, Geometry.Align16;
  }

  lemma Sixteens(x: nat, q: nat)
    requires 16 * q <= x < 16 * q + 16
    ensures Geometry.Align16(x) == 16 * q
  {
    assert x - 16 * q == x % 16 && x / 16 == q;
  }

  lemma RowsOf480(padW: nat)
    ensures Grid.At(480, padW * 4) == 1920 * padW
  {
  }

  /** A 16-bit panel sent as RGB with padding: the check of its pitch is skipped, and the
      last rows are read from outside the panel buffer. */
  lemma NarrowPitchIsAccepted()
    ensures var l := Layout(720, 480, 1440, 1280, 720);
            l.Accepted() && l.Box().padded && l.RowBytes() > l.pitch && !l.FrameInside()
  {
    FrameInsideExactly(Layout(720, 480, 1440, 1280, 720));
  }

  /** The device's own case. */
  lemma TheDeviceFits()
    ensures Layout(720, 480, 2880, 1280, 720).FrameInside()
  {
    var l := Layout(720, 480, 2880, 1280, 720);
    Sizes(l, 853, 848);
    FrameInsideExactly(l);
  }

  // ---------------------------------------------------------------- what is shown

  /** What byte i of the surface should hold: the panel inside the image rectangle, black
      everywhere else. */
  function Shown(l: Layout, panel: seq<Byte>, i: nat): Byte
    requires l.Accepted() && l.Fits() && |panel| == l.PanelBytes() && i < l.Alloc()
  {
    if l.Box().padded then
      var y, x := Grid.Row(i, PitchOf(l, i)), Grid.Col(i, PitchOf(l, i));
      if l.InImage(y, x) then
        Grid.RowInside(y - l.Box().padY, l.h, l.pitch);
        panel[Grid.At(y - l.Box().padY, l.pitch) + (x - l.Left())]
      else 0
    else
      UnpaddedAlloc(l);
      panel[i]
  }

  function Picture(l: Layout, panel: seq<Byte>): seq<Byte>
    requires l.Accepted() && l.Fits() && |panel| == l.PanelBytes()
  {
    seq(l.Alloc(), i requires 0 <= i < l.Alloc() => Shown(l, panel, i))
  }

  /** A surface with a byte in it has a pitch. */
  function PitchOf(l: Layout, i: nat): (d: nat)
    requires i < l.Alloc()
    ensures d > 0
  {
    AllocIsSize(l);
    l.DstPitch()
  }

  /** `copy_nonoverlapping`: n bytes, both ends in bounds. */
  method Copy(src: array<Byte>, from: nat, dst: array<Byte>, at: nat, n: nat)
    requires src != dst && from + n <= src.Length && at + n <= dst.Length
    modifies dst
    ensures forall i: nat | i < dst.Length ::
              dst[i] == if at <= i < at + n then src[from + (i - at)] else old(dst[i])
  {
    for x := 0 to n
      invariant forall i: nat | i < dst.Length ::
                  dst[i] == if at <= i < at + x then src[from + (i - at)] else old(dst[i])
    {
      dst[at + x] := src[from + x];
    }
  }

  class InputSurface {
    const l: Layout
    /** The vendor's allocation. With one buffer in the pool, the same one every frame. */
    const bytes: array<Byte>
    /** The bars are painted once. */
    var barsCleared: bool

    ghost predicate Valid()
      reads this, bytes
    {
      && l.Accepted()
      && bytes.Length == l.Alloc()
      && (barsCleared ==> l.Box().padded && l.ClearInside() && BarsBlack())
    }

    ghost predicate BarsBlack()
      requires bytes.Length == l.Alloc()
      reads this, bytes
    {
      l.Fits() ==> forall i: nat | i < bytes.Length && !InPanel(i) :: bytes[i] == 0
    }

    predicate InPanel(i: nat)
      requires i < l.Alloc()
    {
      l.InImage(Grid.Row(i, PitchOf(l, i)), Grid.Col(i, PitchOf(l, i)))
    }

    /** The buffer has the size asked for, and arbitrary contents. */
    constructor (l: Layout, bytes: array<Byte>)
      requires l.Accepted() && bytes.Length == l.Alloc()
      ensures Valid() && this.l == l && this.bytes == bytes && !barsCleared
    {
      this.l, this.bytes, barsCleared := l, bytes, false;
    }

    /** One frame. No access leaves a buffer if and only if the layout fits; then the whole
        surface is as it should be shown, although the bars were painted only by the first
        frame. Otherwise the frame stops at the access that does. */
    method Convert(panel: array<Byte>) returns (inside: bool)
      requires Valid() && panel != bytes && panel.Length == l.PanelBytes() && l.h > 0
      modifies this`barsCleared, bytes
      ensures Valid()
      ensures inside <==> l.Fits()
      ensures inside ==> bytes[..] == Picture(l, panel[..])
    {
      hide Geometry.ForTarget, Grid.At;
      FrameInsideExactly(l);
      if l.Box().padded {
        if !barsCleared {
          if USize(l.Size()) > bytes.Length {
            return false;
          }
          Clear(USize(l.Size()));
          barsCleared := true;
        }
        inside := CopyRows(panel);
      } else {
        if panel.Length > bytes.Length {
          return false;
        }
        CopyAll(panel);
        inside := true;
      }
    }

    /** `write_bytes`: n zeros. */
    method Clear(n: nat)
      requires l.Box().padded && bytes.Length == l.Alloc() && n <= bytes.Length && n == USize(l.Size())
      modifies bytes
      ensures BarsBlack()
    {
      hide Grid.At, Geometry.ForTarget;
      if l.Fits() {
        AllocIsSize(l);
      }
      hide Layout.Fits, Layout.Alloc, Layout.Size, Layout.InImage;
      for i := 0 to n
        invariant forall j: nat | j < i :: bytes[j] == 0
      {
        bytes[i] := 0;
      }
    }

    /** Row by row into the image rectangle. */
    method CopyRows(panel: array<Byte>) returns (inside: bool)
      requires Valid() && l.Box().padded && barsCleared
      requires panel != bytes && panel.Length == l.PanelBytes() && l.h > 0
      modifies bytes
      ensures Valid()
      ensures inside <==> l.Fits()
      ensures inside ==> forall i: nat | i < bytes.Length :: bytes[i] == Shown(l, panel[..], i)
    {
      hide Layout.Fits, Layout.RowInside, Layout.Box, Shown;
      FrameInsideExactly(l);
      for y := 0 to l.h
        invariant forall r: nat | r < y :: l.RowInside(r)
        invariant BarsBlack()
        invariant l.Fits() ==>
                    forall i: nat | i < bytes.Length && InPanel(i) && Grid.Row(i, PitchOf(l, i)) < l.Box().padY + y ::
                      bytes[i] == Shown(l, panel[..], i)
      {
        if !l.RowInside(y) {
          return false;
        }
        CopyRow(panel, y);
      }
      inside := true;
      AllShown(panel[..]);
    }

    /** With every image row copied and the bars black, everything is as it should be. */
    lemma AllShown(panel: seq<Byte>)
      requires l.Accepted() && l.Fits() && l.Box().padded && bytes.Length == l.Alloc() && |panel| == l.PanelBytes()
      requires forall i: nat | i < bytes.Length && !InPanel(i) :: bytes[i] == 0
      requires forall i: nat | i < bytes.Length && InPanel(i) && Grid.Row(i, PitchOf(l, i)) < l.Box().padY + l.h ::
                 bytes[i] == Shown(l, panel, i)
      ensures forall i: nat | i < bytes.Length :: bytes[i] == Shown(l, panel, i)
    {
      hide Grid.At, Geometry.ForTarget;
      forall i: nat | i < bytes.Length ensures bytes[i] == Shown(l, panel, i) {
        if InPanel(i) {
        }
      }
    }

    /** Panel row y, straight into its place; nothing else changes. */
    method CopyRow(panel: array<Byte>, y: nat)
      requires l.Accepted() && l.Box().padded && bytes.Length == l.Alloc()
      requires panel != bytes && panel.Length == l.PanelBytes() && y < l.h && l.RowInside(y)
      modifies bytes
      ensures l.Fits() ==> forall i: nat | i < bytes.Length ::
                bytes[i] == if InPanel(i) && Grid.Row(i, PitchOf(l, i)) == l.Box().padY + y
                            then Shown(l, panel[..], i) else old(bytes[i])
    {
      hide Grid.At, Geometry.ForTarget, Layout.RowFrom, Layout.RowTo, USize;
      Copy(panel, l.RowFrom(y), bytes, l.RowTo(y), l.RowBytes());
      if l.Fits() {
        forall i: nat | i < bytes.Length
          ensures bytes[i] == if InPanel(i) && Grid.Row(i, PitchOf(l, i)) == l.Box().padY + y
                              then Shown(l, panel[..], i) else old(bytes[i])
        {
          InCopiedRow(i, y);
          if InPanel(i) && Grid.Row(i, PitchOf(l, i)) == l.Box().padY + y {
            RowStart(l, y);
          }
        }
      }
    }

    /** The bytes of one copied row are the image bytes of that surface row. */
    lemma InCopiedRow(i: nat, y: nat)
      requires l.Fits() && l.Box().padded && i < l.Alloc() && y < l.h
      ensures var row, at := l.Box().padY + y, l.RowTo(y);
              && (at <= i < at + l.RowBytes() <==> InPanel(i) && Grid.Row(i, PitchOf(l, i)) == row)
              && (at <= i < at + l.RowBytes() ==> Grid.Col(i, PitchOf(l, i)) - l.Left() == i - at)
    {
      hide Grid.At, Geometry.ForTarget, Layout.RowTo;
      var d, row := PitchOf(l, i), l.Box().padY + y;
      FitsPlaces(l);
      WritesInside(l, y);
      Grid.Recompose(i, d);
      if l.RowTo(y) <= i < l.RowTo(y) + l.RowBytes() {
        Grid.RowCol(row, i - Grid.At(row, d), d);
      }
    }

    /** Without bars one copy of the whole panel buffer does it. */
    method CopyAll(panel: array<Byte>)
      requires l.Accepted() && !l.Box().padded && bytes.Length == l.Alloc() && l.Fits()
      requires panel != bytes && panel.Length == l.PanelBytes() <= bytes.Length
      modifies bytes
      ensures forall i: nat | i < bytes.Length :: bytes[i] == Shown(l, panel[..], i)
    {
      hide Grid.At, Geometry.ForTarget;
      UnpaddedAlloc(l);
      Copy(panel, 0, bytes, 0, panel.Length);
    }
  }

  lemma RowStart(l: Layout, y: nat)
    requires y < l.h
    ensures l.RowFrom(y) == Grid.At(y, l.pitch)
  {
    AtInUSize(y, l.h, l.pitch);
  }

  /** Any number of frames, through the one buffer, from any first contents: no access
      leaves a buffer, in any of them, if and only if the layout fits, and then the surface
      shows the last panel. */
  method Play(s: InputSurface, panels: seq<array<Byte>>) returns (inside: bool)
    requires s.Valid() && s.l.h > 0
    requires forall k | 0 <= k < |panels| :: panels[k] != s.bytes && panels[k].Length == s.l.PanelBytes()
    modifies s`barsCleared, s.bytes
    ensures s.Valid()
    ensures panels != [] ==> (inside <==> s.l.Fits())
    ensures panels != [] && inside ==> s.bytes[..] == Picture(s.l, panels[|panels| - 1][..])
  {
    inside := true;
    for k := 0 to |panels|
      invariant s.Valid()
      invariant k > 0 ==> s.l.Fits() && s.bytes[..] == Picture(s.l, panels[k - 1][..])
    {
      inside := s.Convert(panels[k]);
      if !inside {
        return;
      }
    }
    inside := true;
  }

  /** An unpadded layout of the ordinary kind shows pixel for pixel: the surface is the
      panel, row by row. */
  lemma UnpaddedPixels(l: Layout, panel: seq<Byte>, y: nat, x: nat)
    requires l.Accepted() && l.Fits() && !l.Box().padded && l.RowBytes() < U32_LIMIT
    requires |panel| == l.PanelBytes() && y < l.h && x < l.RowBytes()
    ensures Grid.At(y, l.DstPitch()) + x < l.Alloc()
    ensures Grid.At(y, l.pitch) + x < |panel|
    ensures Shown(l, panel, Grid.At(y, l.DstPitch()) + x) == panel[Grid.At(y, l.pitch) + x]
  {
    hide Grid.At, Geometry.ForTarget;
    UnpaddedAlloc(l);
    Grid.RowInside(y, l.h, l.pitch);
  }

  /** A padded layout shows the panel where the box puts it, four bytes a pixel on both
      sides: byte x of panel row y, padY rows down and padX pixels in. */
  lemma PaddedPixels(l: Layout, panel: seq<Byte>, y: nat, x: nat)
    requires l.Accepted() && l.Fits() && l.Box().padded && |panel| == l.PanelBytes()
    requires y < l.h && x < 4 * l.w
    ensures var at := Grid.At(l.Box().padY + y, 4 * l.Box().padW) + 4 * l.Box().padX + x;
            && at < |Picture(l, panel)| && Grid.At(y, l.pitch) + x < |panel|
            && Picture(l, panel)[at] == panel[Grid.At(y, l.pitch) + x]
  {
    hide Grid.At, Geometry.ForTarget;
    FitsPlaces(l);
    var row, col := l.Box().padY + y, 4 * l.Box().padX + x;
    SurfaceByte(l, row, col);
    Grid.RowInside(y, l.h, l.pitch);
  }

  /** And is black everywhere else. */
  lemma BarsAreBlack(l: Layout, panel: seq<Byte>, row: nat, col: nat)
    requires l.Accepted() && l.Fits() && l.Box().padded && |panel| == l.PanelBytes()
    requires row < l.Box().padH && col < 4 * l.Box().padW
    requires !(l.Box().padY <= row < l.Box().padY + l.h && 4 * l.Box().padX <= col < 4 * (l.Box().padX + l.w))
    ensures var at := Grid.At(row, 4 * l.Box().padW) + col; at < |Picture(l, panel)| && Picture(l, panel)[at] == 0
  {
    hide Grid.At, Geometry.ForTarget;
    SurfaceByte(l, row, col);
  }

  lemma SurfaceByte(l: Layout, row: nat, col: nat)
    requires l.Fits() && l.Box().padded && row < l.Box().padH && col < 4 * l.Box().padW
    ensures var i := Grid.At(row, 4 * l.Box().padW) + col;
            i < l.Alloc() && Grid.Row(i, PitchOf(l, i)) == row && Grid.Col(i, PitchOf(l, i)) == col
  {
    hide Grid.At, Geometry.ForTarget;
    FitsPlaces(l);
    Grid.RowInside(row, l.Box().padH, 4 * l.Box().padW);
    Grid.RowCol(row, col, 4 * l.Box().padW);
  }
}
