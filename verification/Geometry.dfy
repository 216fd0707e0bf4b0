/** Pillarbox and letterbox geometry for the engine's scaler: `rgsp-cedar/src/geometry.rs`. */
module Geometry {
  import opened Common

  type U32 = x: nat | x < U32_LIMIT

  /** The padded surface, where the panel sits in it, and whether it was padded. */
  datatype Pillarbox = Pillarbox(padW: nat, padH: nat, padX: nat, padY: nat, padded: bool)

  function Wrap(x: int): U32 {
    x % U32_LIMIT
  }

  /** `x & !15`. */
  function Align16(x: nat): nat {
    x - x % 16
  }

  /** The source's u64 products: two u32 factors never overflow them. */
  function Product(a: nat, b: nat): nat {
    a * b
  }

  /** The source's `want`: the exact-aspect size, rounded down. */
  function Want(exact: nat, den: nat): nat
    requires den > 0
  {
    exact / den
  }

  /** `want` rounded to the nearest 16, or `src` rounded up to 16 when that would crop;
      in u32 arithmetic. */
  function RoundU32(src: U32, want: nat): U32 {
    var nearest := Align16(Wrap(Wrap(want) + 8));
    if nearest < src then Align16(Wrap(src + 15)) else nearest
  }

  /** The grown dimension of a surface `cross` across, for a target of `num` by `den`. */
  function Grow(src: U32, cross: U32, num: U32, den: U32): nat
    requires den > 0
  {
    RoundU32(src, Want(Product(cross, num), den))
  }

  /** The destination is wider, or taller, than the panel. */
  predicate Wider(srcW: nat, srcH: nat, dstW: nat, dstH: nat) {
    Product(srcH, dstW) > Product(srcW, dstH)
  }

  predicate Taller(srcW: nat, srcH: nat, dstW: nat, dstH: nat) {
    Product(srcH, dstW) < Product(srcW, dstH)
  }

  function ForTarget(srcW: U32, srcH: U32, dstW: U32, dstH: U32): Pillarbox {
    if dstW == 0 || dstH == 0 || !(Wider(srcW, srcH, dstW, dstH) || Taller(srcW, srcH, dstW, dstH)) then
      Pillarbox(srcW, srcH, 0, 0, false)
    else
      var padW := if Wider(srcW, srcH, dstW, dstH) then Grow(srcW, srcH, dstW, dstH) else srcW;
      var padH := if Wider(srcW, srcH, dstW, dstH) then srcH else Grow(srcH, srcW, dstH, dstW);
      Pillarbox(padW, padH, Wrap(padW - srcW) / 2, Wrap(padH - srcH) / 2, true)
  }

  /** No scaling, or the panel's own aspect ratio: the panel as it is. */
  lemma SameAspectIsUnpadded(srcW: U32, srcH: U32, dstW: U32, dstH: U32)
    ensures ForTarget(srcW, srcH, dstW, dstH) == Pillarbox(srcW, srcH, 0, 0, false)
       <==> dstW == 0 || dstH == 0 || srcH * dstW == srcW * dstH
  {
    hide Grow;
  }

  // ---------------------------------------------------------------- what it should be

  /** The same rounding without machine arithmetic. */
  function Round(src: nat, want: nat): nat {
    var nearest := Align16(want + 8);
    if nearest < src then Align16(src + 15) else nearest
  }

  predicate FixUp(src: nat, want: nat) {
    Align16(want + 8) < src
  }

  /** Checkable before the call: neither the rounded size nor the fix-up leaves u32. */
  predicate Fits(src: U32, want: nat) {
    want + 8 < U32_LIMIT && (FixUp(src, want) ==> src + 15 < U32_LIMIT)
  }

  /** u32 arithmetic gives the intended size exactly when the intended size fits. */
  lemma RoundExact(src: U32, want: nat)
    ensures RoundU32(src, want) == Round(src, want) <==> Fits(src, want)
  {
    hide Align16;
    if want + 8 < U32_LIMIT {
      assert Wrap(want) == want && Wrap(want + 8) == want + 8;
      if src + 15 >= U32_LIMIT {
        AlignPastU32(src + 15);
        AlignBounds(Wrap(src + 15));
      } else {
        assert Wrap(src + 15) == src + 15;
      }
    } else {
      AlignPastU32(want + 8);
      AlignBounds(Wrap(Wrap(want) + 8));
      AlignBounds(Wrap(src + 15));
    }
  }

  lemma AlignPastU32(x: nat)
    requires x >= U32_LIMIT
    ensures Align16(x) >= U32_LIMIT
  {
  }

  lemma QuotientBounds(p: nat, den: nat)
    requires den > 0
    ensures Want(p, den) * den <= p < Want(p, den) * den + den
  {
  }

  lemma RoundBounds(src: nat, want: nat)
    requires src <= want
    ensures Round(src, want) % 16 == 0 && src <= Round(src, want)
    ensures !FixUp(src, want) ==> want - 7 <= Round(src, want) <= want + 8
    ensures FixUp(src, want) ==> want - 6 <= Round(src, want) <= want + 15
    ensures src % 16 == 0 ==> !FixUp(src, want)
  {
    AlignBounds(want + 8);
    AlignBounds(src + 15);
    hide Align16;
    if src % 16 == 0 {
      MultipleBelow(src / 16, Align16(want + 8) / 16);
    }
  }

  lemma AlignBounds(x: nat)
    ensures Align16(x) % 16 == 0 && x - 15 <= Align16(x) <= x
  {
  }

  lemma MultipleBelow(a: nat, b: nat)
    requires 16 * a <= 16 * b + 7
    ensures a <= b
  {
  }

  lemma WantHoldsSource(src: nat, exact: nat, den: nat)
    requires den > 0 && Product(src, den) < exact
    ensures src <= Want(exact, den)
  {
    QuotientBounds(exact, den);
    if src > Want(exact, den) {
      Scale(Want(exact, den) + 1, src, den);
    }
  }

  /** `grown` is within `lo` below and `hi` above the exact size exact/den. */
  predicate Close(grown: nat, exact: nat, den: nat, lo: nat, hi: nat) {
    exact < Product(grown, den) + Product(lo, den) && Product(grown, den) <= exact + Product(hi, den)
  }

  /** A size that close to the whole quotient is that close to the exact one too. */
  lemma CloseToExact(grown: nat, exact: nat, den: nat, lo: nat, hi: nat)
    requires den > 0 && Want(exact, den) - lo <= grown <= Want(exact, den) + hi
    ensures Close(grown, exact, den, lo + 1, hi)
  {
    var want := Want(exact, den);
    QuotientBounds(exact, den);
    Scale(want - lo, grown, den);
    Scale(grown, want + hi, den);
    assert (want - lo) * den == want * den - lo * den;
    assert (want + hi) * den == want * den + hi * den;
    assert (lo + 1) * den == lo * den + den;
  }

  /** The grown dimension is a multiple of 16 that holds the source, within 8 of the
      exact-aspect size exact/den, or within 16 when the fix-up fired; the fix-up never
      fires for a 16-aligned source. */
  lemma GrowBounds(src: nat, exact: nat, den: nat)
    requires den > 0 && Product(src, den) < exact
    ensures var want := Want(exact, den);
            var grown := Round(src, want);
            && grown % 16 == 0 && src <= grown
            && (if FixUp(src, want) then Close(grown, exact, den, 7, 15) else Close(grown, exact, den, 8, 8))
            && (src % 16 == 0 ==> !FixUp(src, want))
  {
    WantHoldsSource(src, exact, den);
    var want := Want(exact, den);
    RoundBounds(src, want);
    if FixUp(src, want) {
      CloseToExact(Round(src, want), exact, den, 6, 15);
    } else {
      CloseToExact(Round(src, want), exact, den, 7, 8);
    }
  }

  /** `grown` replaces `src`, with the image at `at`: a multiple of 16, never cropped,
      centred to within one pixel. */
  predicate Placed(src: nat, grown: nat, at: nat) {
    grown % 16 == 0 && 0 <= grown - src - 2 * at <= 1
  }

  /** Exactly one dimension may grow, the one the target's aspect ratio asks for. */
  predicate WellPlaced(p: Pillarbox, srcW: nat, srcH: nat, dstW: nat, dstH: nat) {
    && p.padded
    && (Wider(srcW, srcH, dstW, dstH) ==> p.padH == srcH && p.padY == 0 && Placed(srcW, p.padW, p.padX))
    && (Taller(srcW, srcH, dstW, dstH) ==> p.padW == srcW && p.padX == 0 && Placed(srcH, p.padH, p.padY))
  }

  /** Close to the exact-aspect size exact/den. */
  predicate NearAspect(src: nat, grown: nat, exact: nat, den: nat) {
    Close(grown, exact, den, 8, 8) || (src % 16 != 0 && Close(grown, exact, den, 7, 15))
  }

  /** And the grown dimension gives the target's aspect ratio. */
  predicate WellPadded(p: Pillarbox, srcW: nat, srcH: nat, dstW: nat, dstH: nat) {
    && WellPlaced(p, srcW, srcH, dstW, dstH)
    && (Wider(srcW, srcH, dstW, dstH) ==> NearAspect(srcW, p.padW, Product(srcH, dstW), dstH))
    && (Taller(srcW, srcH, dstW, dstH) ==> NearAspect(srcH, p.padH, Product(srcW, dstH), dstW))
  }

  /** The grown size holds the source, even where `want` has wrapped: only a fix-up whose
      own sum leaves u32 loses it. */
  predicate Holds(src: U32, want: nat) {
    src + 15 < U32_LIMIT || Align16(Wrap(Wrap(want) + 8)) >= src
  }

  predicate TargetHolds(srcW: U32, srcH: U32, dstW: U32, dstH: U32)
    requires dstW > 0 && dstH > 0
  {
    if Wider(srcW, srcH, dstW, dstH) then Holds(srcW, Want(Product(srcH, dstW), dstH))
    else Holds(srcH, Want(Product(srcW, dstH), dstW))
  }

  lemma RoundHolds(src: U32, want: nat)
    ensures RoundU32(src, want) % 16 == 0
    ensures RoundU32(src, want) >= src <==> Holds(src, want)
    ensures RoundU32(src, want) < src ==> RoundU32(src, want) == 0
  {
    if src + 15 >= U32_LIMIT {
      assert Wrap(src + 15) == src + 15 - U32_LIMIT < 16;
    }
  }

  /** Placement needs nothing of the target: it fails only for a panel within 15 of 2^32
      whose fix-up wraps. */
  lemma PillarboxShape(srcW: U32, srcH: U32, dstW: U32, dstH: U32)
    requires dstW > 0 && dstH > 0
    requires Wider(srcW, srcH, dstW, dstH) || Taller(srcW, srcH, dstW, dstH)
    ensures WellPlaced(ForTarget(srcW, srcH, dstW, dstH), srcW, srcH, dstW, dstH) <==> TargetHolds(srcW, srcH, dstW, dstH)
  {
    hide Product, Want, RoundU32, Holds;
    if Wider(srcW, srcH, dstW, dstH) {
      RoundHolds(srcW, Want(Product(srcH, dstW), dstH));
    } else {
      RoundHolds(srcH, Want(Product(srcW, dstH), dstW));
    }
  }

  predicate TargetFits(srcW: U32, srcH: U32, dstW: U32, dstH: U32)
    requires dstW > 0 && dstH > 0
  {
    if Wider(srcW, srcH, dstW, dstH) then Fits(srcW, Want(Product(srcH, dstW), dstH))
    else Fits(srcH, Want(Product(srcW, dstH), dstW))
  }

  lemma PillarboxBounds(srcW: U32, srcH: U32, dstW: U32, dstH: U32)
    requires dstW > 0 && dstH > 0
    requires Wider(srcW, srcH, dstW, dstH) || Taller(srcW, srcH, dstW, dstH)
    requires TargetFits(srcW, srcH, dstW, dstH)
    ensures WellPadded(ForTarget(srcW, srcH, dstW, dstH), srcW, srcH, dstW, dstH)
  {
    hide Product, Want, Round, RoundU32, FixUp, Close;
    if Wider(srcW, srcH, dstW, dstH) {
      RoundExact(srcW, Want(Product(srcH, dstW), dstH));
      GrowBounds(srcW, Product(srcH, dstW), dstH);
    } else {
      RoundExact(srcH, Want(Product(srcW, dstH), dstW));
      GrowBounds(srcH, Product(srcW, dstH), dstW);
    }
  }

  /** `padded` does not mean there are bars: rounding gives a 16-aligned panel its own size
      back when the exact-aspect size is less than 8 larger. */
  lemma BarsExactly(srcW: U32, srcH: U32, dstW: U32, dstH: U32)
    requires dstW > 0 && dstH > 0
    requires Wider(srcW, srcH, dstW, dstH) || Taller(srcW, srcH, dstW, dstH)
    requires TargetFits(srcW, srcH, dstW, dstH)
    ensures var p := ForTarget(srcW, srcH, dstW, dstH);
            p.padW > srcW || p.padH > srcH
            <==> if Wider(srcW, srcH, dstW, dstH) then srcW % 16 != 0 || Want(Product(srcH, dstW), dstH) >= srcW + 8
                 else srcH % 16 != 0 || Want(Product(srcW, dstH), dstW) >= srcH + 8
  {
    hide Product, Want, Round, RoundU32;
    if Wider(srcW, srcH, dstW, dstH) {
      RoundExact(srcW, Want(Product(srcH, dstW), dstH));
      WantHoldsSource(srcW, Product(srcH, dstW), dstH);
      GrowsExactly(srcW, Want(Product(srcH, dstW), dstH));
    } else {
      RoundExact(srcH, Want(Product(srcW, dstH), dstW));
      WantHoldsSource(srcH, Product(srcW, dstH), dstW);
      GrowsExactly(srcH, Want(Product(srcW, dstH), dstW));
    }
  }

  lemma GrowsExactly(src: nat, want: nat)
    requires src <= want
    ensures src <= Round(src, want)
    ensures Round(src, want) > src <==> src % 16 != 0 || want >= src + 8
  {
  }

  /** Panels and targets up to 2^15 a side always fit. */
  lemma SmallTargetsFit(srcW: U32, srcH: U32, dstW: U32, dstH: U32)
    requires srcW <= 0x8000 && srcH <= 0x8000 && 0 < dstW <= 0x8000 && 0 < dstH <= 0x8000
    ensures TargetFits(srcW, srcH, dstW, dstH)
  {
    ProductBound(srcH, dstW);
    ProductBound(srcW, dstH);
    QuotientAtMost(Product(srcH, dstW), dstH);
    QuotientAtMost(Product(srcW, dstH), dstW);
  }

  lemma ProductBound(a: nat, b: nat)
    requires a <= 0x8000 && b <= 0x8000
    ensures Product(a, b) <= 0x4000_0000
  {
    Scale(a, 0x8000, b);
  }

  lemma QuotientAtMost(p: nat, den: nat)
    requires den > 0
    ensures Want(p, den) <= p
  {
    QuotientBounds(p, den);
    Scale(1, den, Want(p, den));
  }
}
