/** `rgsp-cedar/src/capture.rs`: the object that owns the engine from open to drop, over a
    `Vendor.Device` whose every call may fail. */
module Capture {
  import opened Common
  import opened Vendor
  import Bitstream
  import Geometry
  import Grid
  import Nv12
  import Pacing
  import Surface

  datatype Error =
    | LoadFailed
    | AlreadyOpen
    | FramebufferOpen
    | BadGeometry
    | BadPitch
    | OpsMissing
    | MemOpenFailed
    | CreateFailed
    | BitrateFailed
    | InitFailed
    | AllocFailed
    | NoBuffer
    | ReadFailed(frame: int)
    // an access outside a buffer: the program does not survive it, and the run ends here
    | OutOfBounds(frame: int)
    | SubmitFailed(frame: int)
    | EncodeFailed(frame: int)
    | BitstreamFailed(frame: int)
    | GetBufferFailed(frame: int)

  /** The panel, as the framebuffer reports it. */
  datatype Panel = Panel(w: Geometry.U32, h: Geometry.U32, bpp: nat, pitch: Geometry.U32)

  datatype Request = Request(
    width: Geometry.U32, height: Geometry.U32, dstW: Geometry.U32, dstH: Geometry.U32,
    fps: I32, bitrate: I32, rgb: bool)

  datatype Frame = Frame(data: seq<Byte>, keyframe: bool)

  /** What one call saw: when it entered and sampled, how much of the panel it read, whether
      the vendor took a key-frame request, what it handed over as parameter sets, the segments
      it had to offer, those drained, and whether it gave the spent buffer back. */
  datatype Trace = Trace(
    entered: int, sampled: int, got: int, taken: bool, raw: Option<seq<Byte>>,
    offered: seq<Segment>, drained: seq<Segment>, reclaimed: bool)

  const SPS_PPS_CAP: nat := 512

  predicate ValidGeometry(p: Panel, width: nat, height: nat) {
    && p.bpp in {16, 32}
    && (width == 0 || width == p.w)
    && (height == 0 || height == p.h)
  }

  /** The unpadded RGB copy writes pitch*h bytes into a w*h*4 allocation. */
  predicate ValidRgbPitch(rgb: bool, padded: bool, pitch: nat, w: nat) {
    !(rgb && !padded && pitch != w * 4 % U32_LIMIT)
  }

  /** Why a framebuffer is turned down; `fb` is None when it cannot be opened. */
  function Refusal(fb: Option<Panel>, req: Request): Option<Error> {
    if fb.None? || !ValidGeometry(fb.value, 0, 0) then Some(FramebufferOpen)
    else if !ValidGeometry(fb.value, req.width, req.height) then Some(BadGeometry)
    else if !ValidRgbPitch(req.rgb, PadFor(fb.value, req).padded, fb.value.pitch, fb.value.w) then Some(BadPitch)
    else None
  }

  /** What opening lets through: a panel of 16 or 32 bits a pixel, of the size asked for if
      one is, and for an unpadded RGB copy a pitch of four bytes a pixel in u32. */
  lemma AcceptedExactly(fb: Option<Panel>, req: Request)
    ensures Refusal(fb, req).None?
       <==> fb.Some? && var p := fb.value;
            && p.bpp in {16, 32}
            && (req.width == 0 || req.width == p.w) && (req.height == 0 || req.height == p.h)
            && (req.rgb && (req.dstW == 0 || req.dstH == 0 || p.h * req.dstW == p.w * req.dstH) ==>
                  p.pitch == p.w * 4 % 0x1_0000_0000)
    ensures Refusal(fb, req) == Some(FramebufferOpen) <==> fb.None? || fb.value.bpp !in {16, 32}
    ensures Refusal(fb, req) == Some(BadPitch) ==> fb.Some? && req.rgb && fb.value.pitch != fb.value.w * 4 % 0x1_0000_0000
  {
    hide Geometry.ForTarget;
    if fb.Some? {
      Geometry.SameAspectIsUnpadded(fb.value.w, fb.value.h, req.dstW, req.dstH);
      PaddedOtherwise(fb.value, req);
    }
  }

  lemma PaddedOtherwise(p: Panel, req: Request)
    ensures !PadFor(p, req).padded ==> PadFor(p, req) == Geometry.Pillarbox(p.w, p.h, 0, 0, false)
  {
  }

  function PadFor(p: Panel, req: Request): Geometry.Pillarbox {
    Geometry.ForTarget(p.w, p.h, req.dstW, req.dstH)
  }

  // ---------------------------------------------------------------- what fits the input buffer

  function LayoutOf(p: Panel, req: Request): Surface.Layout {
    Surface.Layout(p.w, p.h, p.pitch, req.dstW, req.dstH)
  }

  function ImageOf(p: Panel, bytes: seq<Byte>): Nv12.Image {
    Nv12.Image(if p.bpp == 32 then Nv12.Bgra else Nv12.Rgb565, bytes, p.pitch, p.w, p.h)
  }

  function PanelBytes(p: Panel): nat {
    Grid.At(p.h, p.pitch)
  }

  /** Checkable at open; nothing checks it there. */
  predicate InputFits(rgb: bool, p: Panel, box: Geometry.Pillarbox) {
    if rgb then Surface.FitsIn(p.w, p.h, p.pitch, box)
    else Nv12.FitsIn(ImageOf(p, []).format, p.w, p.h, p.pitch, Grid.At(box.padH, box.padW))
  }

  /** Where a frame's accesses reach: the clears and copies of an RGB frame, the reads and
      writes of a converted one. Nothing can be read of an empty panel, and no frame is made. */
  ghost predicate FrameInside(p: Panel, req: Request) {
    PanelBytes(p) > 0 ==>
      if req.rgb then LayoutOf(p, req).FrameInside()
      else Nv12.FrameInside(ImageOf(p, []).format, p.w, p.h, p.pitch, Grid.At(PadFor(p, req).padH, PadFor(p, req).padW))
  }

  /** The guard at open against the copies it should protect: for every panel and request it
      accepts, every access of a frame lies inside both buffers if and only if the panel is
      empty or `InputFits`. */
  lemma AcceptedFrameInside(p: Panel, req: Request)
    requires Refusal(Some(p), req).None?
    ensures FrameInside(p, req) <==> PanelBytes(p) == 0 || InputFits(req.rgb, p, PadFor(p, req))
  {
    LayoutAccepted(p, req);
    hide Geometry.ForTarget;
    if PanelBytes(p) > 0 {
      if req.rgb {
        Surface.FrameInsideExactly(LayoutOf(p, req));
      } else {
        Nv12.FrameInsideExactly(ImageOf(p, []).format, p.w, p.h, p.pitch, Grid.At(PadFor(p, req).padH, PadFor(p, req).padW));
      }
    }
  }

  lemma LayoutAccepted(p: Panel, req: Request)
    requires Refusal(Some(p), req).None?
    ensures req.rgb ==> LayoutOf(p, req).Accepted() && LayoutOf(p, req).Box() == PadFor(p, req)
  {
    hide Geometry.ForTarget;
  }

  /** Two panels and targets it accepts, and the first frame of which leaves a buffer. */
  lemma WideTargetIsAccepted()
    ensures var p, req := Panel(720, 480, 32, 2880), Request(720, 480, 4661, 1, 60, 0, true);
            Refusal(Some(p), req).None? && !FrameInside(p, req)
  {
    Surface.WideTargetOutgrowsU32();
  }

  lemma NarrowPitchIsAccepted()
    ensures var p, req := Panel(720, 480, 16, 1440), Request(720, 480, 1280, 720, 60, 0, true);
            Refusal(Some(p), req).None? && !FrameInside(p, req)
  {
    Surface.NarrowPitchIsAccepted();
  }

  /** What a frame leaves in the input buffer: the picture of the panel, or its two planes. */
  ghost predicate Holds(p: Panel, req: Request, image: seq<Byte>, luma: seq<Byte>, chroma: seq<Byte>)
    requires Refusal(Some(p), req).None?
  {
    && InputFits(req.rgb, p, PadFor(p, req)) && |image| == PanelBytes(p)
    && if req.rgb then
         LayoutAccepted(p, req);
         luma == Surface.Picture(LayoutOf(p, req), image)
       else
         Nv12.CoveredExactly(ImageOf(p, image));
         && |luma| >= Grid.At(p.h, p.w) && |chroma| >= Nv12.ChromaSize(p.w, p.h)
         && Nv12.Planes(ImageOf(p, image), luma, chroma)
  }

  /** Planes of the sizes asked for hold what the loops write, and the panel what they read. */
  lemma PlanesFit(p: Panel, req: Request, image: seq<Byte>)
    requires Refusal(Some(p), req).None? && !req.rgb && InputFits(false, p, PadFor(p, req)) && |image| == PanelBytes(p)
    ensures ImageOf(p, image).Covered()
    ensures Grid.At(p.h, p.w) <= LumaSize(false, PadFor(p, req))
    ensures Nv12.ChromaSize(p.w, p.h) <= ChromaSize(false, PadFor(p, req))
  {
    hide Geometry.ForTarget, Grid.At, Nv12.LastRead, Nv12.Image.Covered;
    Nv12.CoveredExactly(ImageOf(p, image));
    NoArea(p.h, p.w);
  }

  lemma NoArea(rows: nat, cols: nat)
    ensures rows == 0 || cols == 0 ==> Grid.At(rows, cols) == 0
  {
  }

  /** Byte by byte, what an RGB frame leaves in the engine's buffer is the panel, where the
      box puts it; the rest is black. */
  lemma RgbShowsPanel(p: Panel, req: Request, image: seq<Byte>, luma: seq<Byte>, chroma: seq<Byte>, y: nat, x: nat)
    requires Refusal(Some(p), req).None? && req.rgb && Holds(p, req, image, luma, chroma)
    requires y < p.h && x < 4 * p.w < U32_LIMIT
    ensures var box := PadFor(p, req);
            var at := Grid.At(box.padY + y, 4 * box.padW) + 4 * box.padX + x;
            at < |luma| && Grid.At(y, p.pitch) + x < |image| && luma[at] == image[Grid.At(y, p.pitch) + x]
  {
    hide Geometry.ForTarget, Grid.At;
    LayoutAccepted(p, req);
    if PadFor(p, req).padded {
      Surface.PaddedPixels(LayoutOf(p, req), image, y, x);
    } else {
      Surface.UnpaddedAlloc(LayoutOf(p, req));
      Surface.UnpaddedPixels(LayoutOf(p, req), image, y, x);
      PaddedOtherwise(p, req);
    }
  }

  /** What a converted frame leaves is the luma of each of its pixels, to within one of the
      standard's, read as blue, green, red or as a 16-bit word by the panel's depth. */
  lemma ConvertedShowsPanel(p: Panel, req: Request, image: seq<Byte>, luma: seq<Byte>, chroma: seq<Byte>, y: nat, x: nat)
    requires Refusal(Some(p), req).None? && !req.rgb && Holds(p, req, image, luma, chroma)
    requires y < p.h && x < p.w
    ensures var at, from := Grid.At(y, p.w) + x, Grid.At(y, p.pitch);
            && at < |luma|
            && (p.bpp == 32 ==>
                  && from + 4 * x + 2 < |image|
                  && Nv12.LumaOf(luma[at], image[from + 4 * x + 2], image[from + 4 * x + 1], image[from + 4 * x]))
            && (p.bpp == 16 ==>
                  && from + 2 * x + 1 < |image|
                  && var word := image[from + 2 * x] as int + 256 * image[from + 2 * x + 1] as int;
                     Nv12.LumaOf(luma[at], word / 0x800 * 8, word / 0x20 % 0x40 * 4, word % 0x20 * 8))
  {
    hide Geometry.ForTarget, Grid.At, Nv12.LumaOf, Nv12.LumaPlane, Nv12.ChromaPlane;
    var m := ImageOf(p, image);
    Nv12.CoveredExactly(m);
    m.PixelInside(y, x);
    Nv12.LumaPlaneShows(m, luma, y, x);
  }

  /** `n_size_y` and `n_size_c`, in u32. */
  function LumaSize(rgb: bool, box: Geometry.Pillarbox): nat {
    if rgb then Surface.AllocFor(box) else Geometry.Wrap(Grid.At(box.padH, box.padW))
  }

  function ChromaSize(rgb: bool, box: Geometry.Pillarbox): nat {
    if rgb then 0 else Geometry.Wrap(Grid.At(box.padH, box.padW)) / 2
  }

  /** The pace of a capture: 30 frames a second for a rate that is not positive. */
  function PacedFps(req: Request): (fps: I32)
    ensures fps > 0
  {
    if req.fps <= 0 then 30 else req.fps
  }

  // ---------------------------------------------------------------- what a frame's bytes are

  function OrVerbatim(written: seq<Byte>, raw: seq<Byte>): seq<Byte> {
    if written == [] then raw else written
  }

  /** What one output buffer contributes: each ring segment converted, or, when the
      split does not add up, one run converted or passed on verbatim. */
  function SegmentBytes(s: Segment): seq<Byte> {
    if s.Splits() then
      Bitstream.Converted(s.data0.value[..s.size0])
      + if s.data1.Some? && s.size1 != 0 then Bitstream.Converted(s.data1.value[..s.size1]) else []
    else if s.data0.Some? && s.total != 0 then
      OrVerbatim(Bitstream.Converted(s.data0.value[..s.total]), s.data0.value[..s.total])
    else []
  }

  function Unit(drained: seq<Segment>): seq<Byte> {
    if drained == [] then []
    else Unit(drained[..|drained| - 1]) + SegmentBytes(drained[|drained| - 1])
  }

  /** The sets kept from what the vendor hands over after the first frame. */
  function SetsFrom(raw: Option<seq<Byte>>): seq<Byte> {
    if raw.None? || raw.value == [] || |raw.value| > SPS_PPS_CAP then []
    else if |raw.value| > 7 && raw.value[0] == 1 then Bitstream.AnnexB(Bitstream.RecordSets(raw.value))
    else raw.value
  }

  /** Frame 0 leads with the stored sets; every later unit stands alone. */
  function Body(first: bool, sets: seq<Byte>, unit: seq<Byte>): seq<Byte> {
    if first then sets + unit else unit
  }

  /** The frame handed out: the body, behind the sets when it is a keyframe that lacks
      them. */
  function FrameOf(first: bool, sets: seq<Byte>, unit: seq<Byte>): Frame {
    var body := Body(first, sets, unit);
    var key := Bitstream.IsIdr(body);
    Frame(if key && sets != [] && !Bitstream.OpensWithSets(body) then sets + body else body, key)
  }

  /** Every keyframe opens with a parameter set, if the stored sets do. */
  lemma KeyframesCarrySets(first: bool, sets: seq<Byte>, unit: seq<Byte>)
    requires Bitstream.OpensWithSets(sets)
    requires FrameOf(first, sets, unit).keyframe
    ensures Bitstream.OpensWithSets(FrameOf(first, sets, unit).data)
  {
    Bitstream.PrependOpensWithSets(sets, Body(first, sets, unit));
  }

  /** What is put in front of a drained unit: the sets, once, ahead of frame 0 and of a later
      keyframe without any; nothing ahead of a frame that is no keyframe, or opens with sets
      of its own. */
  lemma FrameShape(first: bool, sets: seq<Byte>, unit: seq<Byte>)
    ensures var f := FrameOf(first, sets, unit);
            && (!first ==> f.data == unit || f.data == sets + unit)
            && (!first && (!Bitstream.IsIdr(unit) || Bitstream.OpensWithSets(unit)) ==> f.data == unit)
            && (!first && Bitstream.IsIdr(unit) && !Bitstream.OpensWithSets(unit) ==> f.data == sets + unit)
            && (first && (!Bitstream.IsIdr(sets + unit) || Bitstream.OpensWithSets(sets)) ==> f.data == sets + unit)
            && (f.keyframe <==> Bitstream.IsIdr(if first then sets + unit else unit))
  {
    assert sets == [] ==> sets + unit == unit;
    if first && Bitstream.OpensWithSets(sets) {
      Bitstream.PrependOpensWithSets(sets, unit);
    }
  }

  // ---------------------------------------------------------------- the NALs of a frame

  /** Not taken for a start-code stream. */
  predicate Plain(nals: seq<Bitstream.Nal>) {
    nals == [] || |nals[0]| >= 2
  }

  /** A segment that holds whole length-prefixed NALs: the two halves of the ring, when their
      sizes add up to the total in u32, or else one run. */
  predicate Carries(s: Segment, front: seq<Bitstream.Nal>, back: seq<Bitstream.Nal>) {
    && s.data0.Some? && Plain(front) && Plain(back)
    && if s.size0 != 0 && (s.size0 + s.size1) % 0x1_0000_0000 == s.total then
         && Bitstream.Framed(s.data0.value[..s.size0], front)
         && if s.data1.Some? && s.size1 != 0 then Bitstream.Framed(s.data1.value[..s.size1], back) else back == []
       else s.total != 0 && Bitstream.Framed(s.data0.value[..s.total], front) && front != [] && back == []
  }

  function InTurn(fronts: seq<seq<Bitstream.Nal>>, backs: seq<seq<Bitstream.Nal>>): seq<Bitstream.Nal>
    requires |fronts| == |backs|
  {
    if fronts == [] then []
    else
      var n := |fronts| - 1;
      InTurn(fronts[..n], backs[..n]) + (fronts[n] + backs[n])
  }

  lemma SegmentNals(s: Segment, front: seq<Bitstream.Nal>, back: seq<Bitstream.Nal>)
    requires Carries(s, front, back)
    ensures SegmentBytes(s) == Bitstream.AnnexB(front + back)
  {
    hide Bitstream.Converted, Bitstream.Framed;
    Bitstream.AnnexBConcat(front, back);
    if s.Splits() {
      Bitstream.ConversionRoundTrip(s.data0.value[..s.size0], front);
      if s.data1.Some? && s.size1 != 0 {
        Bitstream.ConversionRoundTrip(s.data1.value[..s.size1], back);
      }
    } else {
      Bitstream.ConversionRoundTrip(s.data0.value[..s.total], front);
      assert Bitstream.AnnexB(front) != [];
    }
  }

  /** Drained segments of whole NALs come out as these NALs, front half before back half,
      segment by segment, each behind a start code. */
  lemma {:induction false} DrainedNals(
      drained: seq<Segment>, fronts: seq<seq<Bitstream.Nal>>, backs: seq<seq<Bitstream.Nal>>)
    requires |fronts| == |backs| == |drained|
    requires forall k | 0 <= k < |drained| :: Carries(drained[k], fronts[k], backs[k])
    ensures Unit(drained) == Bitstream.AnnexB(InTurn(fronts, backs))
  {
    hide Carries, SegmentBytes;
    if drained != [] {
      var n := |drained| - 1;
      DrainedNals(drained[..n], fronts[..n], backs[..n]);
      SegmentNals(drained[n], fronts[n], backs[n]);
      Bitstream.AnnexBConcat(InTurn(fronts[..n], backs[..n]), fronts[n] + backs[n]);
    }
  }

  /** So the frame is flagged by the first slice the encoder handed over, and the sets go in
      front of a later one that is an IDR slice with no set ahead of it. */
  lemma FrameOfNals(
      sets: seq<Byte>, drained: seq<Segment>, fronts: seq<seq<Bitstream.Nal>>, backs: seq<seq<Bitstream.Nal>>,
      refs: seq<nat>, types: seq<nat>)
    requires |fronts| == |backs| == |drained|
    requires forall k | 0 <= k < |drained| :: Carries(drained[k], fronts[k], backs[k])
    requires Bitstream.HeadedBy(InTurn(fronts, backs), refs, types) && Bitstream.EmulationFree(InTurn(fronts, backs))
    ensures var f, unit := FrameOf(false, sets, Unit(drained)), Bitstream.AnnexB(InTurn(fronts, backs));
            var idr := Bitstream.Decides(types, {1, 5}, 5);
            var own := Bitstream.Decides(types, {1, 5, 7, 8}, 7) || Bitstream.Decides(types, {1, 5, 7, 8}, 8);
            && (f.keyframe <==> idr)
            && f.data == if idr && !own then sets + unit else unit
  {
    hide Unit, Carries, InTurn, Bitstream.IsIdr, Bitstream.OpensWithSets, Bitstream.Decides, Bitstream.HeadedBy;
    DrainedNals(drained, fronts, backs);
    Bitstream.WalkTypes(InTurn(fronts, backs), refs, types);
    FrameShape(false, sets, Unit(drained));
    hide FrameOf;
  }

  /** The keyframe flag is the verdict of the bytes handed out, when the sets hold no
      slice and cannot run into what follows them. */
  lemma FlagMatchesBytes(first: bool, sets: seq<Byte>, unit: seq<Byte>)
    requires Bitstream.FirstOf(Bitstream.NalTypes(sets), Bitstream.SLICES) == None
    requires Bitstream.CleanTail(sets) || Bitstream.OpensWithZeros(Body(first, sets, unit))
    ensures Bitstream.IsIdr(FrameOf(first, sets, unit).data) == FrameOf(first, sets, unit).keyframe
  {
    Bitstream.PrependKeepsVerdict(sets, Body(first, sets, unit));
  }

  /** Emitted as the vendor gave it, because it neither splits nor parses. */
  predicate Verbatim(s: Segment) {
    !s.Splits() && s.data0.Some? && s.total != 0 && Bitstream.Converted(s.data0.value[..s.total]) == []
  }

  lemma SegmentOpens(s: Segment)
    requires !Verbatim(s)
    ensures SegmentBytes(s) == [] || Bitstream.OpensWithZeros(SegmentBytes(s))
  {
    hide Bitstream.Converted;
    if s.Splits() {
      var a := Bitstream.Converted(s.data0.value[..s.size0]);
      Bitstream.ConvertedOpens(s.data0.value[..s.size0]);
      if s.data1.Some? && s.size1 != 0 {
        Bitstream.ConvertedOpens(s.data1.value[..s.size1]);
        assert a == [] ==> SegmentBytes(s) == Bitstream.Converted(s.data1.value[..s.size1]);
      }
    } else if s.data0.Some? && s.total != 0 {
      Bitstream.ConvertedOpens(s.data0.value[..s.total]);
    }
  }

  /** The first segment that contributes anything was converted. */
  predicate FirstConverted(drained: seq<Segment>) {
    forall k | 0 <= k < |drained| && Unit(drained[..k]) == [] && Verbatim(drained[k]) :: SegmentBytes(drained[k]) == []
  }

  /** Then the unit begins with a start code's zeros. */
  lemma {:induction false} UnitOpens(drained: seq<Segment>)
    requires FirstConverted(drained)
    ensures Unit(drained) == [] || Bitstream.OpensWithZeros(Unit(drained))
  {
    hide SegmentBytes, Verbatim;
    if drained != [] {
      var front, last := drained[..|drained| - 1], drained[|drained| - 1];
      forall k | 0 <= k < |front| && Unit(front[..k]) == [] && Verbatim(front[k]) ensures SegmentBytes(front[k]) == [] {
        assert front[..k] == drained[..k] && front[k] == drained[k];
      }
      UnitOpens(front);
      if !Verbatim(last) {
        SegmentOpens(last);
      }
    }
  }

  /** On the code's own path, with converted output, the flag is the verdict of the bytes
      for any stored sets without a slice; ahead of frame 0 those must also not run into
      themselves, as no parameter sets do. */
  lemma FlagMatchesConverted(first: bool, sets: seq<Byte>, drained: seq<Segment>)
    requires Bitstream.FirstOf(Bitstream.NalTypes(sets), Bitstream.SLICES) == None
    requires FirstConverted(drained)
    requires first ==> sets == [] || Bitstream.OpensWithSets(sets) || Bitstream.OpensWithZeros(sets)
                       || Bitstream.CleanTail(sets)
    ensures var f := FrameOf(first, sets, Unit(drained)); Bitstream.IsIdr(f.data) == f.keyframe
  {
    var unit := Unit(drained);
    var body := Body(first, sets, unit);
    UnitOpens(drained);
    hide Unit, FirstConverted, Bitstream.CleanTail;
    if FrameOf(first, sets, unit).data != body {
      if first && Bitstream.OpensWithSets(sets) {
        Bitstream.PrependOpensWithSets(sets, unit);
      } else if unit == [] && !first {
        EmptyIsNoKey();
      } else {
        Bitstream.PrependKeepsVerdict(sets, body);
      }
    }
  }

  lemma EmptyIsNoKey()
    ensures !Bitstream.IsIdr([])
  {
  }

  /** A segment the vendor could hand over, emitted verbatim. */
  function Alone(unit: seq<Byte>): Segment
    requires 0 < |unit| < U32_LIMIT
  {
    RawSegment(Some(unit), 0, None, 0, |unit|)
  }

  lemma AloneIsVerbatim(unit: seq<Byte>)
    requires unit in {[0, 1, 0x41, 0, 0, 1, 0x65], [0x41, 0, 0, 1, 0x65], [1, 0x41, 0, 0, 1, 0x65], Bitstream.IDR}
    ensures Unit([Alone(unit)]) == unit
  {
    assert unit[..|unit|] == unit;
    assert [Alone(unit)][..0] == [];
    assert Unit([]) == [];
  }

  /** The flag of the frame is the verdict of its bytes. */
  ghost predicate FlagMatches(first: bool, sets: seq<Byte>, drained: seq<Segment>) {
    var f := FrameOf(first, sets, Unit(drained));
    Bitstream.IsIdr(f.data) == f.keyframe
  }

  /** Stored bytes that later keyframes may have in front: an IDR slice comes first in them,
      or no slice at all, and they cannot begin a start code. */
  ghost predicate LaterFrameSafe(sets: seq<Byte>) {
    var slice := Bitstream.FirstOf(Bitstream.NalTypes(sets), Bitstream.SLICES);
    slice == Some(5) || (slice == None && Bitstream.CleanTail(sets))
  }

  /** The flag of every later frame is the verdict of its bytes, whatever is drained, if and
      only if the stored bytes are such. */
  lemma FlagMatchesExactly(sets: seq<Byte>)
    ensures (forall drained: seq<Segment> :: FlagMatches(false, sets, drained)) <==> LaterFrameSafe(sets)
  {
    if LaterFrameSafe(sets) {
      forall drained: seq<Segment> ensures FlagMatches(false, sets, drained) {
        LaterFrameMatches(sets, Unit(drained));
      }
    } else if Bitstream.FirstOf(Bitstream.NalTypes(sets), Bitstream.SLICES) == None {
      var drained := FlagDisagrees(sets);
    } else {
      SliceInFront(sets);
    }
  }

  lemma LaterFrameMatches(sets: seq<Byte>, unit: seq<Byte>)
    requires LaterFrameSafe(sets)
    ensures Bitstream.IsIdr(FrameOf(false, sets, unit).data) == FrameOf(false, sets, unit).keyframe
  {
    if Bitstream.FirstOf(Bitstream.NalTypes(sets), Bitstream.SLICES) == None {
      FlagMatchesBytes(false, sets, unit);
    } else {
      SliceDecides(sets, unit);
    }
  }

  /** A slice in the stored bytes is the first of whatever they stand in front of. */
  lemma SliceDecides(sets: seq<Byte>, unit: seq<Byte>)
    requires Bitstream.FirstOf(Bitstream.NalTypes(sets), Bitstream.SLICES).Some?
    ensures Bitstream.IsIdr(sets + unit) == Bitstream.IsIdr(sets)
  {
    Bitstream.TypesConcat(sets, unit);
    var seam := Bitstream.TypesAt(sets + unit, Bitstream.Seam(sets, unit));
    Bitstream.FirstOfConcat(Bitstream.NalTypes(sets) + seam, Bitstream.NalTypes(unit), Bitstream.SLICES);
    Bitstream.FirstOfConcat(Bitstream.NalTypes(sets), seam, Bitstream.SLICES);
  }

  /** One that is no IDR slice, in front of a bare IDR slice. */
  lemma SliceInFront(sets: seq<Byte>)
    requires Bitstream.FirstOf(Bitstream.NalTypes(sets), Bitstream.SLICES) !in {None, Some(5)}
    ensures !FlagMatches(false, sets, [Alone(Bitstream.IDR)])
  {
    AloneIsVerbatim(Bitstream.IDR);
    OneSlice(Bitstream.IDR, 3);
    SliceDecides(sets, Bitstream.IDR);
    hide Unit;
  }

  /** Stored bytes that frame 0 may lead with: a slice or a set comes first in them, or two
      copies of them do not begin, where they meet, the header of another slice. */
  ghost predicate FirstFrameSafe(sets: seq<Byte>) {
    || Bitstream.FirstOf(Bitstream.NalTypes(sets), Bitstream.SLICES).Some?
    || Bitstream.OpensWithSets(sets)
    || !BeginsASlice(sets)
  }

  /** At the seam of two copies; a lone zero leaves it to the unit behind. */
  ghost predicate BeginsASlice(sets: seq<Byte>) {
    sets == [0] || (|sets| >= 3 && Bitstream.FirstOf(Bitstream.SelfSeam(sets), Bitstream.SLICES) == Some(1))
  }

  /** The flag of frame 0 is the verdict of its bytes, whatever is drained, if and only if
      the stored bytes are such. */
  lemma FirstFlagMatchesExactly(sets: seq<Byte>)
    ensures (forall drained: seq<Segment> :: FlagMatches(true, sets, drained)) <==> FirstFrameSafe(sets)
  {
    if FirstFrameSafe(sets) {
      forall drained: seq<Segment> ensures FlagMatches(true, sets, drained) {
        FirstFrameMatches(sets, Unit(drained));
      }
    } else if sets == [0] {
      FirstFrameDisagrees();
    } else {
      SeamInFront(sets);
    }
  }

  lemma FirstFrameMatches(sets: seq<Byte>, unit: seq<Byte>)
    requires FirstFrameSafe(sets)
    ensures Bitstream.IsIdr(FrameOf(true, sets, unit).data) == FrameOf(true, sets, unit).keyframe
  {
    hide BeginsASlice;
    if Bitstream.FirstOf(Bitstream.NalTypes(sets), Bitstream.SLICES).Some? {
      SliceDecides(sets, unit);
      SliceDecides(sets, sets + unit);
    } else if Bitstream.OpensWithSets(sets) {
      Bitstream.PrependOpensWithSets(sets, unit);
    } else {
      SeamIsNoSlice(sets, unit);
      Bitstream.PrependVerdict(sets, sets + unit);
    }
  }

  lemma SeamIsNoSlice(sets: seq<Byte>, unit: seq<Byte>)
    requires !BeginsASlice(sets)
    ensures var body := sets + unit;
            var seam := Bitstream.TypesAt(sets + body, Bitstream.Seam(sets, body));
            Bitstream.FirstOf(seam, Bitstream.SLICES) in {None, Some(5)}
  {
    FirstOfSlices(Bitstream.TypesAt(sets + (sets + unit), Bitstream.Seam(sets, sets + unit)));
    if |sets| >= 3 {
      Bitstream.SelfSeamThen(sets, unit);
    } else {
      Bitstream.ShortSeam(sets, unit);
    }
  }

  lemma {:induction false} FirstOfSlices(types: seq<Byte>)
    ensures Bitstream.FirstOf(types, Bitstream.SLICES) in {None, Some(1), Some(5)}
  {
    if types != [] {
      FirstOfSlices(types[1..]);
    }
  }

  /** Frame 0 behind three bytes or more that make a slice header with themselves. */
  lemma SeamInFront(sets: seq<Byte>)
    requires !FirstFrameSafe(sets) && sets != [0]
    ensures !FlagMatches(true, sets, [Alone(Bitstream.IDR)])
  {
    AloneIsVerbatim(Bitstream.IDR);
    hide Unit;
    Bitstream.BareIdr(sets);
    Bitstream.SelfSeamThen(sets, Bitstream.IDR);
    Bitstream.PrependVerdict(sets, sets + Bitstream.IDR);
  }

  /** Frame 0 behind a lone zero, which in front of itself and the unit makes one. */
  lemma FirstFrameDisagrees()
    ensures var drained := [Alone([1, 0x41, 0, 0, 1, 0x65])];
            !FlagMatches(true, [0], drained) && FrameOf(true, [0], Unit(drained)).keyframe
  {
    var sets, unit: seq<Byte> := [0], [1, 0x41, 0, 0, 1, 0x65];
    AloneIsVerbatim(unit);
    hide Unit, Bitstream.IsIdr, Bitstream.OpensWithSets;
    assert sets + unit == [0, 1, 0x41, 0, 0, 1, 0x65];
    assert sets + (sets + unit) == [0, 0, 1, 0x41, 0, 0, 1, 0x65];
    OneSlice([0, 1, 0x41, 0, 0, 1, 0x65], 6);
    TwoSlices([0, 0, 1, 0x41, 0, 0, 1, 0x65], 3, 7);
  }

  lemma OneSlice(data: seq<Byte>, p: nat)
    requires Bitstream.HeaderAt(data, p) && data[p] == 0x65
    requires forall k | 0 <= k < |data| && k != p :: !Bitstream.HeaderAt(data, k)
    ensures Bitstream.IsIdr(data) && !Bitstream.OpensWithSets(data)
  {
    Bitstream.TypesOfOne(data, p);
    NoSetsIn(data);
  }

  /** A frame with two headers, of a slice and of an IDR slice, is none by its bytes. */
  lemma TwoSlices(data: seq<Byte>, p: nat, q: nat)
    requires p < q < |data| && Bitstream.HeaderAt(data, p) && Bitstream.HeaderAt(data, q)
    requires forall k | 0 <= k < |data| && k != p && k != q :: !Bitstream.HeaderAt(data, k)
    requires data[p] == 0x41
    ensures !Bitstream.IsIdr(data)
  {
    Bitstream.HeadersSplit(data, 0, q, |data|);
    Bitstream.SingleHeader(data, 0, q, p);
    Bitstream.SingleHeader(data, q, |data|, q);
    assert Bitstream.Headers(data, 0, |data|) == [p, q];
    assert Bitstream.NalTypes(data) == [1, Bitstream.NalType(data[q])];
  }

  /** The later frame where they part behind sets without a slice: flagged a keyframe, and
      not one by its bytes. */
  lemma FlagDisagrees(sets: seq<Byte>) returns (drained: seq<Segment>)
    requires Bitstream.FirstOf(Bitstream.NalTypes(sets), Bitstream.SLICES) == None
    requires !Bitstream.CleanTail(sets)
    ensures !FlagMatches(false, sets, drained) && FrameOf(false, sets, Unit(drained)).keyframe
  {
    var unit := Bitstream.Flipper(sets);
    drained := [Alone(unit)];
    AloneIsVerbatim(unit);
    NoSetsIn(unit);
    hide Unit, Bitstream.IsIdr, Bitstream.CleanTail;
  }

  lemma NoSetsIn(unit: seq<Byte>)
    requires Bitstream.NalTypes(unit) == [5]
    ensures !Bitstream.OpensWithSets(unit)
  {
  }

  /** The assumption on stored sets holds for any avcC record of proper sets, and their tail
      is clean exactly when the last set's is. */
  lemma RecordSetsQualify(head: seq<Byte>, reserved: nat, sps: seq<Bitstream.Nal>, pps: seq<Bitstream.Nal>)
    requires |head| == 4 && reserved < 8
    requires Bitstream.Printable(sps, 31) && Bitstream.Printable(pps, 255)
    requires sps + pps != []
    requires forall k | 0 <= k < |sps + pps| :: (sps + pps)[k] != [] && (sps + pps)[k][0] % 32 in {7, 8}
    requires Bitstream.EmulationFree(sps + pps)
    requires |Bitstream.PrintRecord(head, reserved, sps, pps)| <= SPS_PPS_CAP
    ensures var sets := SetsFrom(Some(Bitstream.PrintRecord(head, reserved, sps, pps)));
            && Bitstream.OpensWithSets(sets)
            && Bitstream.FirstOf(Bitstream.NalTypes(sets), Bitstream.SLICES) == None
            && (Bitstream.CleanTail(sets) <==> Bitstream.CleanTail((sps + pps)[|sps + pps| - 1]))
  {
    var record := Bitstream.PrintRecord(head, reserved, sps, pps);
    var nals := sps + pps;
    Bitstream.RecordTruncation(head, reserved, sps, pps, |record|);
    assert record[..|record|] == record;
    RecordIsLong(head, reserved, sps, pps);
    Bitstream.FramedTail(nals);
    Bitstream.WalkRoundTrip(nals);
    var types := Bitstream.NalTypes(Bitstream.AnnexB(nals));
    assert |types| == |nals|;
    forall k | 0 <= k < |types| ensures types[k] in {7, 8} {
      Bitstream.HeaderBytes(nals, [], k);
      assert [] + Bitstream.AnnexB(nals) == Bitstream.AnnexB(nals);
    }
    AllSets(types);
  }

  /** Bytes that are no record are kept as they are, up to 512 of them. */
  lemma OtherSetsAsGiven(raw: seq<Byte>)
    requires raw != [] ==> raw[0] != 1
    ensures SetsFrom(Some(raw)) == if |raw| <= 512 then raw else []
    ensures SetsFrom(None) == []
  {
  }

  lemma RecordIsLong(head: seq<Byte>, reserved: nat, sps: seq<Bitstream.Nal>, pps: seq<Bitstream.Nal>)
    requires |head| == 4 && reserved < 8
    requires Bitstream.Printable(sps, 31) && Bitstream.Printable(pps, 255)
    requires sps + pps != []
    ensures |Bitstream.PrintRecord(head, reserved, sps, pps)| > 7
    ensures Bitstream.PrintRecord(head, reserved, sps, pps)[0] == 1
  {
    if sps != [] {
      assert |Bitstream.PrintSets(sps)| >= 2;
    } else {
      assert |Bitstream.PrintSets(pps)| >= 2;
    }
  }

  lemma {:induction false} AllSets(types: seq<Byte>)
    requires types != [] && forall k | 0 <= k < |types| :: types[k] in {7, 8}
    ensures Bitstream.FirstOf(types, Bitstream.DECIDERS) in {Some(7), Some(8)}
    ensures Bitstream.FirstOf(types, Bitstream.SLICES) == None
  {
    if |types| > 1 {
      AllSets(types[1..]);
    }
  }

  // ---------------------------------------------------------------- the object

  /** What the teardown calls, in order, for what is held. */
  function Teardown(e: Engine, memOpen: bool, reclaimed: bool): seq<Call> {
    BufferTeardown(e, reclaimed) + EncoderTeardown(e) + ProcessTeardown(e, memOpen)
  }

  function BufferTeardown(e: Engine, reclaimed: bool): seq<Call> {
    if e.pool !in OUT then [] else if reclaimed then [Reclaim(true), ReturnBuffer] else [Reclaim(false)]
  }

  function EncoderTeardown(e: Engine): seq<Call> {
    (if e.bufs then [ReleaseBuffers] else []) + (if e.init then [Uninit] else []) + (if e.enc then [Destroy] else [])
  }

  function ProcessTeardown(e: Engine, memOpen: bool): seq<Call> {
    (if memOpen && e.closable then [MemClose] else []) + [FreeSlot]
  }

  /** What opening calls when nothing fails: the encoder, then its pool; the key-frame
      interval is set if it can be, and `taken` is whether that worked. */
  function EncoderCalls(bitrate: int): seq<Call> {
    [MemOpen(true), Create(true)]
    + (if bitrate > 0 then [SetParameter(Bitrate, bitrate, true)] else [])
    + [Vendor.Init(true)]
  }

  function BufferCalls(settable: bool, req: Request, box: Geometry.Pillarbox, taken: bool): seq<Call> {
    [BufferSizes(LumaSize(req.rgb, box), ChromaSize(req.rgb, box)), AllocBuffers(true)]
    + (if settable then [SetParameter(KeyInterval, AsI32(PacedFps(req) * 60), taken)] else [])
    + [GetBuffer(true)]
  }

  /** How a frame is fed: a pending IDR request first, then the buffer, then the encode. */
  function FeedCalls(forced: bool, taken: bool): seq<Call> {
    ForceCalls(forced, taken) + [Flush, Submit(true), Encode(true)]
  }

  function ForceCalls(forced: bool, taken: bool): seq<Call> {
    if forced then [SetParameter(ForceKeyFrame, 1, taken)] else []
  }

  /** The sets are asked for once, each segment is fetched and handed back before the next
      until one cannot be fetched, and the spent buffer is exchanged for one to fill. */
  function KeepCalls(wanted: bool, raw: Option<seq<Byte>>): seq<Call> {
    if wanted then [GetParameter(raw.Some?)] else []
  }

  function DrainCalls(n: nat): seq<Call> {
    if n == 0 then [] else DrainCalls(n - 1) + [GetBitstream(true), FreeBitstream]
  }

  function CutCalls(cut: bool): seq<Call> {
    if cut then [GetBitstream(false)] else []
  }

  function RecycleCalls(reclaimed: bool): seq<Call> {
    (if reclaimed then [Reclaim(true), ReturnBuffer] else [Reclaim(false)]) + [GetBuffer(true)]
  }

  /** Every call a frame makes; `left` is what it could not drain. */
  function FrameCalls(forced: bool, wanted: bool, t: Trace, left: seq<Segment>): seq<Call> {
    (FeedCalls(forced, t.taken) + KeepCalls(wanted, t.raw))
    + (DrainCalls(|t.drained|) + CutCalls(left != []) + RecycleCalls(t.reclaimed))
  }

  /** A frame's calls open with the one request for a key frame, if one is pending and the
      vendor can be asked, heeded or not; then flush, submit, encode; then the one question
      for the parameter sets, if they are wanted; and none of these is called again. */
  predicate FeedsOnce(calls: seq<Call>, forced: bool, wanted: bool) {
    var n := if forced then 1 else 0;
    var m := n + if wanted then 4 else 3;
    && m <= |calls| && calls[n] == Flush && calls[n + 1] == Submit(true) && calls[n + 2] == Vendor.Encode(true)
    && (forced ==> calls[0] in {SetParameter(ForceKeyFrame, 1, true), SetParameter(ForceKeyFrame, 1, false)})
    && (wanted ==> calls[n + 3].GetParameter?)
    && FeedsNothing(calls[m..])
  }

  predicate FeedsNothing(calls: seq<Call>) {
    forall k | 0 <= k < |calls| ::
      !calls[k].SetParameter? && !calls[k].GetParameter? && !calls[k].Flush? && !calls[k].Submit? && !calls[k].Encode?
  }

  /** The calls between two logs. */
  predicate FedSince(before: seq<Call>, now: seq<Call>, forced: bool, wanted: bool) {
    before <= now && FeedsOnce(now[|before|..], forced, wanted)
  }

  lemma FrameFeeds(log: seq<Call>, forced: bool, wanted: bool, t: Trace, left: seq<Segment>)
    ensures FedSince(log, log + FrameCalls(forced, wanted, t, left), forced, wanted)
  {
    var rest := DrainCalls(|t.drained|) + CutCalls(left != []) + RecycleCalls(t.reclaimed);
    RestFeedsNothing(t, left);
    FeedThenRest(forced, wanted, t, rest);
    hide FeedsOnce, FeedsNothing, FeedCalls, KeepCalls, DrainCalls, CutCalls, RecycleCalls;
    var calls := FrameCalls(forced, wanted, t, left);
    assert (log + calls)[|log|..] == calls;
  }

  lemma RestFeedsNothing(t: Trace, left: seq<Segment>)
    ensures FeedsNothing(DrainCalls(|t.drained|) + CutCalls(left != []) + RecycleCalls(t.reclaimed))
  {
    DrainsOnly(|t.drained|);
    hide DrainCalls;
  }

  lemma FeedThenRest(forced: bool, wanted: bool, t: Trace, rest: seq<Call>)
    requires FeedsNothing(rest)
    ensures FeedsOnce((FeedCalls(forced, t.taken) + KeepCalls(wanted, t.raw)) + rest, forced, wanted)
  {
    var head := FeedCalls(forced, t.taken) + KeepCalls(wanted, t.raw);
    assert (head + rest)[|head|..] == rest;
    hide FeedsNothing;
  }

  lemma {:induction false} DrainsOnly(n: nat)
    ensures forall k | 0 <= k < |DrainCalls(n)| :: DrainCalls(n)[k] in {GetBitstream(true), FreeBitstream}
  {
    if n > 0 {
      DrainsOnly(n - 1);
    }
  }

  /** An open, call by call: the bitrate before the init that applies it, the sizes in u32
      before the pool, the key-frame interval of a minute, and one buffer. */
  lemma OpenCalls(log: seq<Call>, settable: bool, req: Request, box: Geometry.Pillarbox, taken: bool)
    ensures var fps := if req.fps <= 0 then 30 else req.fps;
            var area := Grid.At(box.padH, box.padW) % 0x1_0000_0000;
            log + [TakeSlot] + EncoderCalls(req.bitrate) + BufferCalls(settable, req, box, taken)
            == log + [TakeSlot, MemOpen(true), Create(true)]
               + (if req.bitrate > 0 then [SetParameter(Bitrate, req.bitrate, true)] else [])
               + [Vendor.Init(true)]
               + [if req.rgb then BufferSizes(area * 4 % 0x1_0000_0000, 0) else BufferSizes(area, area / 2)]
               + [AllocBuffers(true)]
               + (if settable then [SetParameter(KeyInterval, AsI32(60 * fps), taken)] else [])
               + [GetBuffer(true)]
  {
    hide Grid.At, AsI32;
    var area := Grid.At(box.padH, box.padW) % 0x1_0000_0000;
    var sizes := if req.rgb then BufferSizes(area * 4 % 0x1_0000_0000, 0) else BufferSizes(area, area / 2);
    assert BufferSizes(LumaSize(req.rgb, box), ChromaSize(req.rgb, box)) == sizes;
  }

  lemma LogConcat(log: seq<Call>, a: seq<Call>, b: seq<Call>)
    ensures (log + a) + b == log + (a + b)
  {
  }

  /** The calls of a frame whose buffer the engine would not take, or not encode. */
  function FailedCalls(e: Error): seq<Call> {
    if e.SubmitFailed? then [Flush, Submit(false)] else [Flush, Submit(true), Vendor.Encode(false)]
  }

  /** An empty one: before the engine allocates, and for frames that are converted. */
  method NoSurface() returns (s: Surface.InputSurface)
    ensures fresh(s)
  {
    var none := new Byte[0];
    s := new Surface.InputSurface(Surface.Layout(0, 0, 0, 0, 0), none);
  }

  /** A read of `got` bytes into a buffer changes no byte behind them. */
  predicate ReadInto(before: seq<Byte>, now: seq<Byte>, got: int) {
    |now| == |before| && forall i | 0 <= i < |now| && i >= got :: now[i] == before[i]
  }

  class Capture {
    const dev: Device
    const rgb: bool
    const fps: I32
    /** What the capture was opened for. */
    const asked: Request

    var panel: Panel
    var pad: Geometry.Pillarbox

    // teardown flags, each set as soon as its acquisition succeeds
    var memOpen: bool
    var enc: bool
    var encInited: bool
    var buffersAlloced: bool
    /** True while an input buffer is checked out of the vendor pool. */
    var held: bool

    var out: seq<Byte>
    var spsPps: seq<Byte>
    var spsPpsFetched: bool

    var frameNs: nat
    var deadline: int
    var frames: int
    var forceIdr: bool
    var shortReads: int

    /** What the panel is read into. */
    var fbBuf: array<Byte>
    /** The engine's one input buffer, and the surface of an RGB frame in it. */
    var luma: array<Byte>
    var chroma: array<Byte>
    var surface: Surface.InputSurface

    /** Set once, by the call of `Next` that fails. */
    var failed: Option<Error>

    ghost function Repr(): set<object>
      reads this`fbBuf, this`luma, this`chroma, this`surface
    {
      {fbBuf, luma, chroma, surface}
    }

    /** Each buffer has the size computed for it. */
    ghost predicate Buffered()
      reads this`panel, this`pad, this`surface, this`fbBuf, this`luma, this`chroma, surface, luma
    {
      && fbBuf.Length == PanelBytes(panel)
      && luma.Length == LumaSize(rgb, pad) && chroma.Length == ChromaSize(rgb, pad)
      && fbBuf != luma && fbBuf != chroma && luma != chroma
      && (rgb ==> surface.l == LayoutOf(panel, asked) && surface.bytes == luma && surface.Valid())
    }

    /** The flags say exactly what is held. */
    ghost predicate Valid()
      reads this`memOpen, this`enc, this`encInited, this`buffersAlloced, this`held, dev`log, dev`engine
    {
      && dev.Valid()
      && fps > 0
      && dev.engine.slot
      && (memOpen ==> dev.engine.mem)
      && (dev.closable ==> memOpen == dev.engine.mem)
      && (enc ==> memOpen)
      && enc == dev.engine.enc
      && encInited == dev.engine.init
      && buffersAlloced == dev.engine.bufs
      && held == (dev.engine.pool in OUT)
      && dev.engine.pool != Reclaimed
      && !dev.engine.lent
    }

    /** The panel was accepted, and padded as asked. */
    ghost predicate Opened()
      reads this`panel, this`pad
    {
      Refusal(Some(panel), asked).None? && pad == PadFor(panel, asked) && rgb == asked.rgb
    }

    /** Open, and either dead or holding a checked-out buffer. */
    ghost predicate Ready()
      reads this, dev`log, dev`engine, surface, luma
    {
      Valid() && buffersAlloced && Opened() && Buffered() && (failed.None? ==> dev.engine.pool == CheckedOut)
    }

    constructor (dev: Device, req: Request)
      requires dev.Valid() && dev.engine.slot && !dev.engine.enc && (dev.closable ==> !dev.engine.mem)
      ensures Valid() && this.dev == dev && rgb == req.rgb && fps == PacedFps(req) && asked == req && fresh(this)
      ensures failed.None? && frames == 0 && !spsPpsFetched && spsPps == [] && !memOpen
    {
      this.dev, rgb, fps, asked := dev, req.rgb, PacedFps(req), req;
      panel := Panel(0, 0, 0, 0);
      pad := Geometry.Pillarbox(0, 0, 0, 0, false);
      memOpen, enc, encInited, buffersAlloced, held := false, false, false, false, false;
      out, spsPps, spsPpsFetched := [], [], false;
      frameNs, deadline, frames, forceIdr, shortReads := 0, 0, 0, false, 0;
      failed := None;
      fbBuf, luma, chroma := new Byte[0], new Byte[0], new Byte[0];
      var none := NoSurface();
      surface := none;
    }

    /** One capture per process: a taken slot turns the next open away, and a capture that
        cannot be built is dropped like any other. */
    static method OpenScaledEx(dev: Device, fb: Option<Panel>, req: Request)
      returns (r: Result<Capture, Error>, ghost taken: bool)
      requires dev.Valid()
      modifies dev
      ensures dev.Valid()
      ensures r.Success? ==> !old(dev.engine.slot) && fresh(r.value) && r.value.dev == dev && r.value.Ready()
                             && r.value.failed.None? && r.value.frames == 0 && !r.value.spsPpsFetched
                             && fb == Some(r.value.panel) && Refusal(fb, req).None?
                             && r.value.pad == Geometry.ForTarget(r.value.panel.w, r.value.panel.h, req.dstW, req.dstH)
                             && r.value.asked == req
                             && fresh(r.value.Repr())
      ensures r.Success? ==>
                && r.value.fps == (if req.fps <= 0 then 30 else req.fps) && r.value.frameNs == 1_000_000_000 / r.value.fps
                && old(dev.clock) <= r.value.deadline == dev.clock
                && var box := r.value.pad;
                   var area := Grid.At(box.padH, box.padW) % 0x1_0000_0000;
                   dev.log == old(dev.log) + [TakeSlot, MemOpen(true), Create(true)]
                              + (if req.bitrate > 0 then [SetParameter(Bitrate, req.bitrate, true)] else [])
                              + [Vendor.Init(true)]
                              + [if req.rgb then BufferSizes(area * 4 % 0x1_0000_0000, 0) else BufferSizes(area, area / 2)]
                              + [AllocBuffers(true)]
                              + (if dev.settable then [SetParameter(KeyInterval, AsI32(60 * r.value.fps), taken)] else [])
                              + [GetBuffer(true)]
      ensures r.Failure? ==> dev.engine.slot == old(dev.engine.slot)
      ensures r.Failure? && r.error in {FramebufferOpen, BadGeometry, BadPitch} ==> Refusal(fb, req) == Some(r.error)
      ensures old(dev.engine.slot) ==> r in {Failure(LoadFailed), Failure(AlreadyOpen)} && dev.log == old(dev.log)
      ensures old(dev.log) <= dev.log
    {
      hide EncoderCalls, BufferCalls, Grid.At, AsI32, Refusal;
      taken := false;
      var loaded := *;
      if !loaded {
        return Failure(LoadFailed), taken;
      }
      if dev.engine.slot {
        return Failure(AlreadyOpen), taken;
      }
      dev.Do(TakeSlot);
      var c := new Capture(dev, req);
      var e;
      e, taken := c.Init(fb, req);
      if e.Some? {
        var _ := c.Drop();
        return Failure(e.value), taken;
      }
      OpenCalls(old(dev.log), dev.settable, req, c.pad, taken);
      return Success(c), taken;
    }

    method Init(fb: Option<Panel>, req: Request) returns (e: Option<Error>, ghost taken: bool)
      requires Valid() && !memOpen && !enc && failed.None? && frames == 0 && !spsPpsFetched
      requires req == asked && rgb == req.rgb && fps == PacedFps(req)
      modifies this, dev
      ensures Valid() && frames == 0 && !spsPpsFetched
      ensures if Refusal(fb, req).Some? then e == Refusal(fb, req) && dev.log == old(dev.log)
              else e.Some? ==> e.value !in {FramebufferOpen, BadGeometry, BadPitch}
      ensures e.None? ==> Ready() && failed.None? && frameNs == 1_000_000_000 / fps
                          && old(dev.clock) <= deadline == dev.clock
                          && dev.log == old(dev.log) + EncoderCalls(req.bitrate) + BufferCalls(dev.settable, req, pad, taken)
      ensures e.None? ==> fb == Some(panel) && pad == PadFor(panel, req) && fresh(Repr())
      ensures old(dev.log) <= dev.log
    {
      hide Run, Step, EncoderCalls, BufferCalls, Refusal, PadFor, Buffered, Opened, Valid, PanelBytes;
      taken := false;
      e := InitFramebuffer(fb, req);
      if e.Some? {
        return;
      }
      e := InitEncoder(req);
      if e.Some? {
        return;
      }
      e, taken := InitBuffers();
      if e.Some? {
        return;
      }
      StartClock();
    }

    /** The first frame is due now. */
    method StartClock()
      requires fps > 0
      modifies this`frameNs, this`deadline, dev`clock
      ensures frameNs == 1_000_000_000 / fps && old(dev.clock) <= deadline == dev.clock
    {
      frameNs := 1_000_000_000 / fps;
      deadline := dev.Now();
    }

    method InitFramebuffer(fb: Option<Panel>, req: Request) returns (e: Option<Error>)
      requires req == asked && req.rgb == rgb
      modifies this`panel, this`pad, this`fbBuf
      ensures e == Refusal(fb, req)
      ensures e.None? ==> fb == Some(panel) && pad == PadFor(panel, req)
      ensures e.None? ==> Opened() && fresh(fbBuf) && fbBuf.Length == PanelBytes(panel)
    {
      if fb.None? || !ValidGeometry(fb.value, 0, 0) {
        return Some(FramebufferOpen);
      }
      if !ValidGeometry(fb.value, req.width, req.height) {
        return Some(BadGeometry);
      }
      panel := fb.value;
      pad := Geometry.ForTarget(panel.w, panel.h, req.dstW, req.dstH);
      if !ValidRgbPitch(rgb, pad.padded, panel.pitch, panel.w) {
        return Some(BadPitch);
      }
      fbBuf := new Byte[PanelBytes(panel)](_ => 0);
      return None;
    }

    method InitEncoder(req: Request) returns (e: Option<Error>)
      requires Valid() && !memOpen && !enc
      modifies this`memOpen, this`enc, this`encInited, dev`log, dev`engine
      ensures Valid() && !buffersAlloced && old(dev.log) <= dev.log
      ensures e.Some? ==> e.value in {OpsMissing, MemOpenFailed, CreateFailed, BitrateFailed, InitFailed}
      ensures e.None? ==> encInited && dev.log == old(dev.log) + EncoderCalls(req.bitrate)
    {
      hide Run;
      var opsPresent := *;
      if !opsPresent {
        return Some(OpsMissing);
      }
      var ok := *;
      dev.Do(MemOpen(ok));
      if !ok {
        return Some(MemOpenFailed);
      }
      memOpen := true;
      ok := *;
      dev.Do(Create(ok));
      enc := ok;
      if !ok {
        return Some(CreateFailed);
      }
      if req.bitrate > 0 {
        if !dev.settable {
          return Some(BitrateFailed);
        }
        ok := *;
        dev.Do(SetParameter(Bitrate, req.bitrate, ok));
        if !ok {
          return Some(BitrateFailed);
        }
      }
      ok := *;
      dev.Do(Vendor.Init(ok));
      if !ok {
        return Some(InitFailed);
      }
      encInited := true;
      return None;
    }

    method InitBuffers() returns (e: Option<Error>, ghost taken: bool)
      requires Valid() && encInited && !buffersAlloced && failed.None? && Opened() && fps == PacedFps(asked)
      requires fbBuf.Length == PanelBytes(panel)
      modifies this`buffersAlloced, this`held, this`luma, this`chroma, this`surface, dev`log, dev`engine
      ensures Valid() && old(dev.log) <= dev.log
      ensures e.Some? ==> e.value in {AllocFailed, NoBuffer}
      ensures e.None? ==> fresh(luma) && fresh(chroma) && fresh(surface)
      ensures e.None? ==> Ready()
                          && dev.log == old(dev.log) + BufferCalls(dev.settable, asked, pad, taken)
    {
      hide Run, Refusal, PadFor, LumaSize, ChromaSize, AsI32, Buffered, PanelBytes;
      var ok := AllocInputBuffer();
      if !ok {
        return Some(AllocFailed), false;
      }
      // the key-frame interval: a failure only keeps the encoder's default cadence
      taken := false;
      if dev.settable {
        ok := *;
        taken := ok;
        dev.Do(SetParameter(KeyInterval, AsI32(fps * 60), ok));
      }
      hide Step;
      ok := CheckOut();
      return if ok then None else Some(NoBuffer), taken;
    }

    /** Ask for the sizes and for the buffer. */
    method AllocInputBuffer() returns (ok: bool)
      requires Valid() && encInited && !buffersAlloced && Opened() && fbBuf.Length == PanelBytes(panel)
      modifies this`buffersAlloced, this`luma, this`chroma, this`surface, dev`log, dev`engine
      ensures Valid() && buffersAlloced == ok
      ensures dev.log == old(dev.log) + [BufferSizes(LumaSize(rgb, pad), ChromaSize(rgb, pad)), AllocBuffers(ok)]
      ensures ok ==> Buffered() && fresh(luma) && fresh(chroma) && fresh(surface) && dev.engine.pool == Idle
    {
      hide Run, LumaSize, ChromaSize, Buffered, Opened, PanelBytes;
      dev.Do(BufferSizes(LumaSize(rgb, pad), ChromaSize(rgb, pad)));
      ok := *;
      dev.Do(AllocBuffers(ok));
      if ok {
        buffersAlloced := true;
        Allocate();
      }
    }

    /** The vendor's allocation, with arbitrary contents. */
    method Allocate()
      requires Opened() && fbBuf.Length == PanelBytes(panel)
      modifies this`luma, this`chroma, this`surface
      ensures Buffered() && fresh(luma) && fresh(chroma) && fresh(surface)
    {
      hide Geometry.ForTarget;
      luma := new Byte[LumaSize(rgb, pad)];
      chroma := new Byte[ChromaSize(rgb, pad)];
      if rgb {
        LayoutAccepted(panel, asked);
        surface := new Surface.InputSurface(LayoutOf(panel, asked), luma);
      } else {
        surface := NoSurface();
      }
    }

    /** A buffer to fill, out of the pool. */
    method CheckOut() returns (ok: bool)
      requires Valid() && buffersAlloced && dev.engine.pool in {Idle, Refused}
      modifies this`held, dev`log, dev`engine
      ensures Valid() && dev.engine.pool == (if ok then CheckedOut else old(dev.engine.pool))
      ensures dev.log == old(dev.log) + [GetBuffer(ok)]
    {
      hide Run;
      ok := *;
      dev.Do(GetBuffer(ok));
      held := ok;
    }

    /** Ask for the spent buffer; one the engine will not name is left with it. */
    method GiveBack() returns (ok: bool)
      requires Valid() && buffersAlloced && held
      modifies this`held, dev`log, dev`engine
      ensures Valid() && !held && dev.engine.pool == (if ok then Idle else Refused)
      ensures dev.engine == old(dev.engine).(pool := dev.engine.pool)
      ensures dev.log == old(dev.log) + if ok then [Reclaim(true), ReturnBuffer] else [Reclaim(false)]
    {
      hide Run;
      ok := *;
      dev.Do(Reclaim(ok));
      if ok {
        dev.Do(ReturnBuffer);
      }
      held := false;
    }

    /** Tear down exactly what is held, in reverse order, and free the slot once. */
    method Drop() returns (reclaimed: bool)
      requires Valid()
      modifies this`held, this`encInited, this`buffersAlloced, this`enc, dev`log, dev`engine
      ensures dev.Valid() && !dev.engine.slot
      ensures dev.log == old(dev.log) + Teardown(old(dev.engine), memOpen, reclaimed)
    {
      hide Run, Step;
      reclaimed := false;
      if enc {
        reclaimed := DropBuffer();
        DropEncoder();
      }
      DropProcess();
    }

    method DropBuffer() returns (reclaimed: bool)
      requires Valid()
      modifies this`held, dev`log, dev`engine
      ensures Valid() && !held
      ensures dev.log == old(dev.log) + BufferTeardown(old(dev.engine), reclaimed)
      ensures dev.engine == old(dev.engine).(pool := dev.engine.pool)
    {
      hide Run, Step;
      reclaimed := false;
      if held {
        reclaimed := GiveBack();
      }
    }

    method DropEncoder()
      requires Valid() && !held && enc
      modifies this`encInited, this`buffersAlloced, this`enc, dev`log, dev`engine
      ensures Valid() && !enc
      ensures dev.log == old(dev.log) + EncoderTeardown(old(dev.engine))
    {
      if buffersAlloced {
        dev.Do(ReleaseBuffers);
        buffersAlloced := false;
      }
      if encInited {
        dev.Do(Uninit);
        encInited := false;
      }
      dev.Do(Destroy);
      enc := false;
    }

    method DropProcess()
      requires Valid() && !enc
      modifies dev`log, dev`engine
      ensures dev.Valid() && !dev.engine.slot
      ensures dev.log == old(dev.log) + ProcessTeardown(old(dev.engine), memOpen)
    {
      if memOpen {
        if dev.closable {
          dev.Do(MemClose);
        }
      }
      dev.Do(FreeSlot);
    }

    // ---------------------------------------------------------------- one frame

    /** One frame, when it is due. The first failure stays: calls after it give it again and
        do nothing else. */
    method Next() returns (r: Result<Frame, Error>, ghost t: Trace)
      requires Ready()
      modifies this`deadline, this`shortReads, this`out, this`forceIdr, this`spsPps, this`spsPpsFetched, this`held
      modifies this`failed, this`frames, dev, Repr()
      ensures Ready() && old(dev.log) <= dev.log
      ensures old(failed).Some? ==> r == Failure(old(failed).value) && failed == old(failed)
                                    && dev.log == old(dev.log) && frames == old(frames) && out == old(out)
      ensures r.Failure? ==> failed == Some(r.error) && frames == old(frames)
      ensures old(failed).None? ==>
                && deadline == Pacing.NextDeadline(old(deadline), t.entered, frameNs)
                && t.sampled >= t.entered >= old(dev.clock)
                && t.sampled >= old(deadline)
                && dev.clock >= t.sampled
                && shortReads == old(shortReads) + (if t.got <= 0 || t.got != PanelBytes(panel) then 1 else 0)
                && t.got <= PanelBytes(panel) && ReadInto(old(fbBuf[..]), fbBuf[..], t.got)
                && (t.got <= 0 <==> r == Failure(ReadFailed(old(frames))))
                && (t.got > 0 && !InputFits(rgb, panel, pad) <==> r == Failure(OutOfBounds(old(frames))))
                && (r.Failure? && r.error.OutOfBounds? ==> r.error.frame == old(frames))
      ensures r.Success? ==> Holds(panel, asked, fbBuf[..], luma[..], chroma[..])
      ensures r.Success? ==>
                && failed.None? && old(failed).None?
                && frames == old(frames) + 1
                && spsPpsFetched && spsPps == (if old(spsPpsFetched) then old(spsPps) else SetsFrom(t.raw))
                && old(dev.pending) <= t.offered == t.drained + dev.pending
                && r.value == FrameOf(old(frames) == 0, spsPps, Unit(t.drained))
                && out == r.value.data
                && !forceIdr
                && dev.log == old(dev.log) + FrameCalls(
                     old(forceIdr) && dev.settable, !old(spsPpsFetched) && dev.gettable, t, dev.pending)
                && FedSince(
                     old(dev.log), dev.log, old(forceIdr) && dev.settable, !old(spsPpsFetched) && dev.gettable)
    {
      hide FedSince;
      hide Run, Step, Nested, Unit, FrameOf, FrameCalls, SetsFrom, Body;
      hide Pacing.NextDeadline, Refusal, PadFor, InputFits, Holds, PanelBytes, ReadInto, Valid, Opened, Buffered;
      t := Trace(0, 0, 0, false, None, [], [], false);
      if failed.Some? {
        return Failure(failed.value), t;
      }
      ghost var entered := Pace();
      var e;
      e, t := Produce(entered, dev.clock);
      r := Conclude(e, t.drained);
    }

    /** `fail`, or the finished frame. */
    method Conclude(e: Option<Error>, ghost drained: seq<Segment>) returns (r: Result<Frame, Error>)
      requires failed.None? && (e.None? ==> out == Body(frames == 0, spsPps, Unit(drained)))
      modifies this`failed, this`frames, this`out
      ensures failed == e
      ensures if e.Some? then r == Failure(e.value) && frames == old(frames)
              else r == Success(FrameOf(old(frames) == 0, spsPps, Unit(drained))) && frames == old(frames) + 1
                   && out == r.value.data
    {
      hide Unit, FrameOf, Body;
      if e.Some? {
        failed := e;
        return Failure(e.value);
      }
      frames := frames + 1;
      var keyframe := Finish(frames == 1, drained);
      return Success(Frame(out, keyframe));
    }

    /** Everything between pacing and the keyframe test. */
    method Produce(ghost entered: int, ghost sampled: int) returns (e: Option<Error>, ghost t: Trace)
      requires Ready() && failed.None?
      modifies this`out, this`shortReads, this`forceIdr, this`spsPps, this`spsPpsFetched, this`held
      modifies dev`log, dev`engine, dev`pending, Repr()
      ensures Valid() && buffersAlloced && old(dev.log) <= dev.log && t.entered == entered && t.sampled == sampled
      ensures Buffered()
      ensures t.got <= PanelBytes(panel) && ReadInto(old(fbBuf[..]), fbBuf[..], t.got)
      ensures shortReads == old(shortReads) + if t.got <= 0 || t.got != PanelBytes(panel) then 1 else 0
      ensures t.got <= 0 <==> e == Some(ReadFailed(frames))
      ensures t.got > 0 && !InputFits(rgb, panel, pad) <==> e == Some(OutOfBounds(frames))
      ensures e.Some? && e.value.OutOfBounds? ==> e.value.frame == frames
      ensures e.None? ==> Holds(panel, asked, fbBuf[..], luma[..], chroma[..])
      ensures e.None? ==>
                && dev.engine.pool == CheckedOut && !forceIdr
                && spsPpsFetched && spsPps == (if old(spsPpsFetched) then old(spsPps) else SetsFrom(t.raw))
                && old(dev.pending) <= t.offered == t.drained + dev.pending
                && out == Body(frames == 0, spsPps, Unit(t.drained))
                && dev.log == old(dev.log) + FrameCalls(
                     old(forceIdr) && dev.settable, !old(spsPpsFetched) && dev.gettable, t, dev.pending)
                && FedSince(
                     old(dev.log), dev.log, old(forceIdr) && dev.settable, !old(spsPpsFetched) && dev.gettable)
    {
      hide Run, Step, Unit, SetsFrom, FrameCalls;
      hide Refusal, PadFor, InputFits, Holds, ReadInto, Buffered, PanelBytes, Valid, Opened, FedSince;
      ghost var got;
      out := [];
      e, got := Grab();
      t := Trace(entered, sampled, got, false, None, [], [], false);
      if e.None? {
        e, t := Drive(t);
      }
    }

    /** The engine's part of a frame. */
    method Drive(ghost seen: Trace) returns (e: Option<Error>, ghost t: Trace)
      requires Valid() && buffersAlloced && dev.engine.pool == CheckedOut && out == []
      modifies this`out, this`forceIdr, this`spsPps, this`spsPpsFetched, this`held
      modifies dev`log, dev`engine, dev`pending
      ensures Valid() && buffersAlloced && old(dev.log) <= dev.log
      ensures t.entered == seen.entered && t.sampled == seen.sampled && t.got == seen.got
      ensures e.Some? ==> !e.value.ReadFailed? && !e.value.OutOfBounds?
      ensures e.None? ==>
                && dev.engine.pool == CheckedOut && !forceIdr
                && spsPpsFetched && spsPps == (if old(spsPpsFetched) then old(spsPps) else SetsFrom(t.raw))
                && old(dev.pending) <= t.offered == t.drained + dev.pending
                && out == Body(frames == 0, spsPps, Unit(t.drained))
                && dev.log == old(dev.log) + FrameCalls(
                     old(forceIdr) && dev.settable, !old(spsPpsFetched) && dev.gettable, t, dev.pending)
                && FedSince(
                     old(dev.log), dev.log, old(forceIdr) && dev.settable, !old(spsPpsFetched) && dev.gettable)
    {
      hide Run, Step, Unit, SetsFrom, FeedCalls, KeepCalls, DrainCalls, CutCalls, RecycleCalls, FedSince;
      ghost var taken, raw, drained, reclaimed;
      t := seen;
      e, taken, raw := Encode();
      if e.Some? {
        return;
      }
      ghost var offered := dev.pending;
      e, drained, reclaimed := Collect();
      t := Trace(seen.entered, seen.sampled, seen.got, taken, raw, offered, drained, reclaimed);
      FrameFeeds(old(dev.log), old(forceIdr) && dev.settable, !old(spsPpsFetched) && dev.gettable, t, dev.pending);
    }

    /** Read the panel, and bring it into the input buffer. */
    method Grab() returns (e: Option<Error>, ghost got: int)
      requires Opened() && Buffered()
      modifies this`shortReads, Repr()
      ensures Buffered()
      ensures got <= PanelBytes(panel) && ReadInto(old(fbBuf[..]), fbBuf[..], got)
      ensures shortReads == old(shortReads) + if got <= 0 || got != PanelBytes(panel) then 1 else 0
      ensures e == if got <= 0 then Some(ReadFailed(frames))
                   else if !InputFits(rgb, panel, pad) then Some(OutOfBounds(frames)) else None
      ensures e.None? ==> Holds(panel, asked, fbBuf[..], luma[..], chroma[..])
    {
      hide Refusal, PadFor, InputFits, Holds, PanelBytes, LumaSize, ChromaSize;
      e, got := Sample();
      if e.Some? {
        return;
      }
      var inside := ConvertIntoInputBuffer();
      if !inside {
        return Some(OutOfBounds(frames)), got;
      }
    }

    /** The copy or conversion; it stops at an access outside a buffer. */
    method ConvertIntoInputBuffer() returns (inside: bool)
      requires Opened() && Buffered() && PanelBytes(panel) > 0
      modifies luma, chroma, surface
      ensures Buffered()
      ensures inside <==> InputFits(rgb, panel, pad)
      ensures inside ==> Holds(panel, asked, fbBuf[..], luma[..], chroma[..])
    {
      hide Geometry.ForTarget, LumaSize, ChromaSize;
      if rgb {
        LayoutAccepted(panel, asked);
        inside := surface.Convert(fbBuf);
      } else {
        inside := ConvertToNv12();
      }
    }

    /** Of a panel that is not sent as RGB. */
    method ConvertToNv12() returns (inside: bool)
      requires Opened() && Buffered() && !rgb
      modifies luma, chroma
      ensures inside <==> InputFits(rgb, panel, pad)
      ensures inside ==> Holds(panel, asked, fbBuf[..], luma[..], chroma[..])
    {
      if !InputFits(rgb, panel, pad) {
        return false;
      }
      PlanesFit(panel, asked, fbBuf[..]);
      hide InputFits, LumaSize, ChromaSize, PadFor, Nv12.Planes, Grid.At, Nv12.Image.Covered;
      if panel.bpp == 32 {
        Nv12.BgraToNv12(fbBuf[..], panel.pitch, panel.w, panel.h, luma, chroma);
      } else {
        Nv12.Rgb565ToNv12(fbBuf[..], panel.pitch, panel.w, panel.h, luma, chroma);
      }
      inside := true;
    }

    /** Encode what was read, and keep the parameter sets, which lead frame 0. */
    method Encode() returns (e: Option<Error>, ghost taken: bool, ghost raw: Option<seq<Byte>>)
      requires Valid() && buffersAlloced && dev.engine.pool == CheckedOut && out == []
      modifies this`out, this`forceIdr, this`spsPps, this`spsPpsFetched
      modifies dev`log, dev`engine, dev`pending
      ensures Valid() && buffersAlloced && old(dev.log) <= dev.log
      ensures e.Some? ==> e.value in {SubmitFailed(frames), EncodeFailed(frames)}
      ensures e.None? ==>
                && dev.engine.pool == Encoded && !forceIdr && old(dev.pending) <= dev.pending
                && spsPpsFetched && spsPps == (if old(spsPpsFetched) then old(spsPps) else SetsFrom(raw))
                && out == (if frames == 0 then spsPps else [])
                && dev.log == old(dev.log) + (FeedCalls(old(forceIdr) && dev.settable, taken)
                                              + KeepCalls(!old(spsPpsFetched) && dev.gettable, raw))
    {
      hide Run, Step, SetsFrom, FeedCalls, KeepCalls;
      raw, taken := None, false;
      e, taken := Feed();
      if e.Some? {
        return;
      }
      raw := KeepSets();
      Lead();
      LogConcat(old(dev.log), FeedCalls(old(forceIdr) && dev.settable, taken),
                KeepCalls(!old(spsPpsFetched) && dev.gettable, raw));
    }

    /** What the first frame opens with. */
    method Lead()
      requires out == []
      modifies this`out
      ensures out == if frames == 0 then spsPps else []
    {
      if frames == 0 && spsPps != [] {
        out := out + spsPps;
      }
    }

    /** Drain what was encoded and exchange the spent buffer. */
    method Collect() returns (e: Option<Error>, ghost drained: seq<Segment>, ghost reclaimed: bool)
      requires Valid() && dev.engine.pool == Encoded
      modifies this`out, this`held, dev`log, dev`engine, dev`pending
      ensures Valid() && buffersAlloced && old(dev.log) <= dev.log
      ensures e.Some? ==> e.value in {BitstreamFailed(frames), GetBufferFailed(frames)}
      ensures e.None? ==>
                && dev.engine.pool == CheckedOut
                && old(dev.pending) == drained + dev.pending
                && out == old(out) + Unit(drained)
                && dev.log == old(dev.log) + (DrainCalls(|drained|) + CutCalls(dev.pending != []) + RecycleCalls(reclaimed))
    {
      hide Run, Step, Unit, DrainCalls, CutCalls, RecycleCalls;
      reclaimed := false;
      e, drained := Drain();
      if e.None? {
        e, reclaimed := Recycle();
      }
    }

    /** The sets in front, if the unit is a keyframe and does not open with any. */
    method Finish(first: bool, ghost drained: seq<Segment>) returns (keyframe: bool)
      requires out == Body(first, spsPps, Unit(drained))
      modifies this`out
      ensures Frame(out, keyframe) == FrameOf(first, spsPps, Unit(drained))
    {
      keyframe := Bitstream.FirstSliceIsIdr(out);
      if keyframe && spsPps != [] {
        var starts := Bitstream.StartsWithParameterSets(out);
        if !starts {
          out := spsPps + out;
        }
      }
    }

    /** Sleep until the deadline, then move it: one interval on, or, after a stall, one
        interval past this entry. */
    method Pace() returns (entered: int)
      modifies this`deadline, dev`clock
      ensures deadline == Pacing.NextDeadline(old(deadline), entered, frameNs)
      ensures old(dev.clock) <= entered <= dev.clock && old(deadline) <= dev.clock
    {
      entered := dev.Now();
      var slack := deadline - entered;
      if slack > 0 {
        dev.Sleep(slack);
      }
      deadline := deadline + frameNs;
      if deadline < entered {
        deadline := entered + frameNs;
      }
    }

    /** The framebuffer read; a short one is only counted, and leaves the rest of the buffer
        as the reads before it did. */
    method Sample() returns (e: Option<Error>, ghost got: int)
      requires fbBuf.Length == PanelBytes(panel)
      modifies this`shortReads, fbBuf
      ensures got <= PanelBytes(panel) && ReadInto(old(fbBuf[..]), fbBuf[..], got)
      ensures e == if got <= 0 then Some(ReadFailed(frames)) else None
      ensures shortReads == old(shortReads) + if got <= 0 || got != PanelBytes(panel) then 1 else 0
    {
      var wanted := PanelBytes(panel);
      var bytes: int :| bytes <= wanted;
      got := bytes;
      if bytes <= 0 {
        shortReads := shortReads + 1;
        return Some(ReadFailed(frames)), got;
      }
      for i := 0 to bytes
        modifies fbBuf
        invariant fbBuf[bytes..] == old(fbBuf[bytes..])
      {
        var b: Byte := *;
        fbBuf[i] := b;
      }
      if bytes != wanted {
        shortReads := shortReads + 1;
      }
      return None, got;
    }

    /** The vendor's one-shot key-frame request; ignored if it fails. */
    method AskForKeyFrame() returns (ghost taken: bool)
      requires Valid() && enc
      modifies this`forceIdr, dev`log, dev`engine
      ensures Valid() && dev.engine == old(dev.engine) && !forceIdr
      ensures dev.log == old(dev.log) + ForceCalls(old(forceIdr) && dev.settable, taken)
    {
      hide Run;
      taken := false;
      if forceIdr {
        var ok := *;
        taken := ok;
        if dev.settable {
          dev.Do(SetParameter(ForceKeyFrame, 1, ok));
        }
        forceIdr := false;
      }
    }

    /** A key frame if one was asked for, then the filled buffer to the encoder. */
    method Feed() returns (e: Option<Error>, ghost taken: bool)
      requires Valid() && dev.engine.pool == CheckedOut
      modifies this`forceIdr, dev`log, dev`engine, dev`pending
      ensures Valid() && old(dev.log) <= dev.log && !forceIdr && buffersAlloced && old(dev.pending) <= dev.pending
      ensures e.None? ==> dev.engine.pool == Encoded
                          && dev.log == old(dev.log) + FeedCalls(old(forceIdr) && dev.settable, taken)
      ensures e.Some? ==> dev.log == old(dev.log) + (ForceCalls(old(forceIdr) && dev.settable, taken) + FailedCalls(e.value))
      ensures e.Some? ==> e.value in {SubmitFailed(frames), EncodeFailed(frames)}
    {
      hide Run, Step, ForceCalls;
      taken := AskForKeyFrame();
      ghost var forced := ForceCalls(old(forceIdr) && dev.settable, taken);
      e := Push();
      LogConcat(old(dev.log), forced, if e.None? then [Flush, Submit(true), Vendor.Encode(true)] else FailedCalls(e.value));
    }

    method Push() returns (e: Option<Error>)
      requires Valid() && dev.engine.pool == CheckedOut
      modifies dev`log, dev`engine, dev`pending
      ensures Valid() && buffersAlloced && old(dev.pending) <= dev.pending
      ensures e.None? ==> dev.engine.pool == Encoded && dev.log == old(dev.log) + [Flush, Submit(true), Vendor.Encode(true)]
      ensures e.Some? ==> dev.log == old(dev.log) + FailedCalls(e.value)
      ensures e.Some? ==> e.value in {SubmitFailed(frames), EncodeFailed(frames)}
    {
      hide Run;
      dev.Do(Flush);
      var ok := *;
      dev.Do(Submit(ok));
      if !ok {
        return Some(SubmitFailed(frames));
      }
      ok := dev.EncodeFrame();
      return if ok then None else Some(EncodeFailed(frames));
    }

    /** Fetched once, by the first frame that is encoded. */
    method KeepSets() returns (ghost raw: Option<seq<Byte>>)
      requires Valid() && enc
      modifies this`spsPps, this`spsPpsFetched, dev`log, dev`engine
      ensures Valid() && dev.engine == old(dev.engine) && spsPpsFetched
      ensures dev.log == old(dev.log) + KeepCalls(!old(spsPpsFetched) && dev.gettable, raw)
      ensures spsPps == if old(spsPpsFetched) then old(spsPps) else SetsFrom(raw)
    {
      raw := None;
      if !spsPpsFetched {
        spsPps, raw := FetchSpsPps();
        spsPpsFetched := true;
      }
    }

    method FetchSpsPps() returns (sets: seq<Byte>, ghost raw: Option<seq<Byte>>)
      requires Valid() && enc
      modifies dev`log, dev`engine
      ensures Valid() && dev.engine == old(dev.engine)
      ensures dev.log == old(dev.log) + KeepCalls(dev.gettable, raw)
      ensures sets == SetsFrom(raw)
    {
      raw := None;
      sets := [];
      var ok := *;
      if !dev.gettable {
        return;
      }
      dev.Do(GetParameter(ok));
      if !ok {
        return;
      }
      var bytes: seq<Byte> := *;
      raw := Some(bytes);
      if bytes == [] || |bytes| > SPS_PPS_CAP {
        return;
      }
      if |bytes| > 7 && bytes[0] == 1 {
        sets := Bitstream.AvccRecordToAnnexB(bytes);
      } else {
        sets := bytes;
      }
    }

    /** Collect the frame's segments; failing to get even the first is an error, a later
        failure ends the list. */
    method Drain() returns (e: Option<Error>, ghost drained: seq<Segment>)
      requires Valid() && dev.engine.pool == Encoded
      modifies this`out, dev`log, dev`engine, dev`pending
      ensures Valid() && dev.engine == old(dev.engine)
      ensures old(dev.pending) == drained + dev.pending
      ensures dev.log == old(dev.log) + DrainCalls(|drained|) + CutCalls(dev.pending != [])
      ensures out == old(out) + Unit(drained)
      ensures e == if dev.pending != [] && out == old(out) then Some(BitstreamFailed(frames)) else None
    {
      hide Run, Step, Nested, SegmentBytes;
      var before := |out|;
      drained := [];
      while dev.pending != []
        invariant Valid() && dev.engine == old(dev.engine)
        invariant old(dev.pending) == drained + dev.pending
        invariant dev.log == old(dev.log) + DrainCalls(|drained|)
        invariant out == old(out) + Unit(drained)
        decreases |dev.pending|
      {
        ghost var log, calls := dev.log, DrainCalls(|drained|);
        var s := Pull();
        if s.None? {
          if |out| == before {
            return Some(BitstreamFailed(frames)), drained;
          }
          return None, drained;
        }
        drained := drained + [s.value];
        assert drained[..|drained| - 1] + [s.value] == drained;
        assert (old(dev.log) + calls) + [GetBitstream(true), FreeBitstream]
            == old(dev.log) + (calls + [GetBitstream(true), FreeBitstream]);
      }
      return None, drained;
    }

    /** One segment: fetched, appended, and handed back exactly once. */
    method Pull() returns (s: Option<Segment>)
      requires Valid() && dev.engine.pool == Encoded && dev.pending != []
      modifies this`out, dev`log, dev`engine, dev`pending
      ensures Valid() && dev.engine == old(dev.engine)
      ensures s.None? ==> out == old(out) && dev.pending == old(dev.pending)
                          && dev.log == old(dev.log) + [GetBitstream(false)]
      ensures s.Some? ==> out == old(out) + SegmentBytes(s.value) && old(dev.pending) == [s.value] + dev.pending
                          && dev.log == old(dev.log) + [GetBitstream(true), FreeBitstream]
    {
      hide Run;
      s := dev.FetchBitstream();
      if s.Some? {
        Take(s.value);
        dev.Do(FreeBitstream);
      }
    }

    method Take(s: Segment)
      modifies this`out
      ensures out == old(out) + SegmentBytes(s)
    {
      hide Bitstream.Converted;
      var written;
      if s.data0.Some? && s.size0 != 0 && (s.size0 + s.size1) % U32_LIMIT == s.total {
        out, written := Bitstream.AppendAvccAsAnnexB(out, s.data0.value[..s.size0]);
        if s.data1.Some? && s.size1 != 0 {
          out, written := Bitstream.AppendAvccAsAnnexB(out, s.data1.value[..s.size1]);
        }
      } else if s.data0.Some? && s.total != 0 {
        var raw := s.data0.value[..s.total];
        out, written := Bitstream.AppendAvccAsAnnexB(out, raw);
        if written == 0 {
          out := out + raw;
        }
      }
    }

    /** Take the spent buffer back and check one out for the next frame. */
    method Recycle() returns (e: Option<Error>, ghost reclaimed: bool)
      requires Valid() && dev.engine.pool == Encoded
      modifies this`held, dev`log, dev`engine
      ensures Valid() && old(dev.log) <= dev.log && buffersAlloced
      ensures e == if dev.engine.pool == CheckedOut then None else Some(GetBufferFailed(frames))
      ensures e.None? ==> dev.log == old(dev.log) + RecycleCalls(reclaimed)
    {
      hide Run, Step;
      var ok := GiveBack();
      reclaimed := ok;
      ok := CheckOut();
      return if ok then None else Some(GetBufferFailed(frames)), reclaimed;
    }

    method RequestIdr()
      modifies this`forceIdr
      ensures forceIdr
    {
      forceIdr := true;
    }
  }

  /** An access outside a buffer, which ends the run. */
  predicate Leaves(r: Result<Frame, Error>) {
    r.Failure? && r.error.OutOfBounds?
  }

  predicate LeftABuffer(results: seq<Result<Frame, Error>>) {
    results != [] && Leaves(results[|results| - 1])
  }

  /** After the first failure all results are that failure. */
  predicate Sticky(results: seq<Result<Frame, Error>>) {
    forall i, j | 0 <= i < j < |results| && results[i].Failure? :: results[j] == results[i]
  }

  /** A frame comes out only where the input buffer fits it; an access outside a buffer
      happens only where it does not, and is the last thing that happens. */
  predicate Faults(results: seq<Result<Frame, Error>>, fits: bool) {
    forall i | 0 <= i < |results| ::
      if results[i].Success? then fits else Leaves(results[i]) ==> !fits && i == |results| - 1
  }

  /** What the results so far say of the failure stored. */
  predicate Ended(results: seq<Result<Frame, Error>>, failed: Option<Error>) {
    match failed
    case None => results == [] || results[|results| - 1].Success?
    case Some(e) => results != [] && results[|results| - 1] == Failure(e)
  }

  lemma OneMoreResult(results: seq<Result<Frame, Error>>, r: Result<Frame, Error>, failed: Option<Error>, fits: bool)
    requires Sticky(results) && Faults(results, fits) && Ended(results, failed) && !LeftABuffer(results)
    requires failed.Some? ==> r == Failure(failed.value)
    requires if r.Success? then fits else failed.None? && Leaves(r) ==> !fits
    ensures Sticky(results + [r]) && Faults(results + [r], fits)
  {
    var n := |results|;
    forall i | 0 <= i < n && results[i].Failure? ensures results[i] == r {
      assert i < n - 1 ==> results[n - 1] == results[i];
    }
  }

  /** The calls a run of frames makes: those of its frames, one after the other. */
  function Joined(made: seq<seq<Call>>): seq<Call> {
    if made == [] then [] else Joined(made[..|made| - 1]) + made[|made| - 1]
  }

  lemma JoinedSnoc(log: seq<Call>, made: seq<seq<Call>>, calls: seq<Call>)
    ensures (log + Joined(made)) + calls == log + Joined(made + [calls])
  {
    assert (made + [calls])[..|made|] == made;
  }

  /** Each frame that came out asked for a key frame exactly if that was requested before
      its own call, and only the first for the parameter sets; `pending` is a request from
      before the first. */
  predicate Heeded(
      results: seq<Result<Frame, Error>>, made: seq<seq<Call>>, requests: seq<bool>,
      pending: bool, settable: bool, wanted: bool) {
    && |made| == |results| <= |requests|
    && forall k | 0 <= k < |results| && results[k].Success? ::
         FeedsOnce(made[k], settable && (requests[k] || (k == 0 && pending)), wanted && k == 0)
  }

  lemma OneMoreHeeded(
      results: seq<Result<Frame, Error>>, made: seq<seq<Call>>, requests: seq<bool>,
      pending: bool, settable: bool, wanted: bool, r: Result<Frame, Error>, calls: seq<Call>)
    requires Heeded(results, made, requests, pending, settable, wanted) && |results| < |requests|
    requires r.Success? ==>
               FeedsOnce(calls, settable && (requests[|results|] || (results == [] && pending)), wanted && results == [])
    ensures Heeded(results + [r], made + [calls], requests, pending, settable, wanted)
  {
    hide FeedsOnce;
  }

  /** One call, an IDR requested before it or not: the outcome, and what it called. */
  method Turn(c: Capture, request: bool) returns (r: Result<Frame, Error>, ghost t: Trace, ghost calls: seq<Call>)
    requires c.Ready()
    modifies c`deadline, c`shortReads, c`out, c`forceIdr, c`spsPps, c`spsPpsFetched, c`held
    modifies c`failed, c`frames, c.dev, c.Repr()
    ensures c.Ready() && c.dev.log == old(c.dev.log) + calls
    ensures old(c.failed).Some? ==> r == Failure(old(c.failed).value)
    ensures if r.Success? then c.failed == None == old(c.failed) else c.failed == Some(r.error)
    ensures old(c.failed).None? ==>
              && c.deadline == Pacing.NextDeadline(old(c.deadline), t.entered, c.frameNs)
              && t.sampled >= t.entered >= old(c.dev.clock) && t.sampled >= old(c.deadline) && c.dev.clock >= t.sampled
              && (Leaves(r) ==> !InputFits(c.rgb, c.panel, c.pad))
    ensures r.Success? ==>
              && InputFits(c.rgb, c.panel, c.pad) && Holds(c.panel, c.asked, c.fbBuf[..], c.luma[..], c.chroma[..])
              && !c.forceIdr && c.spsPpsFetched
              && FeedsOnce(calls, c.dev.settable && (request || old(c.forceIdr)), !old(c.spsPpsFetched) && c.dev.gettable)
  {
    hide Refusal, PadFor, InputFits, SetsFrom, FrameCalls, ReadInto, PanelBytes, Pacing.NextDeadline;
    hide FrameOf, Unit, FeedsOnce, Capture.Valid, Capture.Buffered;
    if request {
      c.RequestIdr();
    }
    ghost var log := c.dev.log;
    r, t := c.Next();
    calls := c.dev.log[|log|..];
  }

  /** Any number of calls on a fresh capture, an IDR requested before call k if requests[k]
      says so, to the first access outside a buffer: all after the first failure repeat it,
      and those up to and including it are paced. `nows` and `samples` are when each of
      these entered and read the panel, `made` what each called. */
  method Frames(c: Capture, requests: seq<bool>)
    returns (results: seq<Result<Frame, Error>>, ghost nows: seq<int>, ghost samples: seq<int>, ghost made: seq<seq<Call>>)
    requires c.Ready() && c.failed.None?
    modifies c`deadline, c`shortReads, c`out, c`forceIdr, c`spsPps, c`spsPpsFetched, c`held
    modifies c`failed, c`frames, c.dev, c.Repr()
    ensures c.Ready() && |results| <= |requests| && (|results| == |requests| || LeftABuffer(results))
    ensures Sticky(results) && Faults(results, InputFits(c.rgb, c.panel, c.pad))
    ensures Pacing.Run(old(c.deadline), c.frameNs, nows, samples) && |nows| <= |requests|
    ensures forall i | 0 <= i < |results| && results[i].Success? :: i < |nows|
    ensures results != [] && results[|results| - 1].Success? ==>
              Holds(c.panel, c.asked, c.fbBuf[..], c.luma[..], c.chroma[..])
    ensures c.dev.log == old(c.dev.log) + Joined(made)
    ensures Heeded(results, made, requests, old(c.forceIdr), c.dev.settable, !old(c.spsPpsFetched) && c.dev.gettable)
  {
    hide Refusal, PadFor, InputFits, Holds, Pacing.Run, Pacing.Deadline, Pacing.NextDeadline, FeedsOnce;
    hide Capture.Valid, Capture.Buffered, Sticky, Faults, Heeded;
    results, nows, samples, made := [], [], [], [];
    ghost var due, frame := c.deadline, c.frameNs;
    ghost var pending, wanted := c.forceIdr, !c.spsPpsFetched && c.dev.gettable;
    Pacing.NoCalls(due, frame);
    NoResults(InputFits(c.rgb, c.panel, c.pad), requests, pending, c.dev.settable, wanted);
    hide Joined;
    while |results| < |requests| && !LeftABuffer(results)
      invariant c.Ready() && |results| <= |requests| && Ended(results, c.failed)
      invariant Sticky(results) && Faults(results, InputFits(c.rgb, c.panel, c.pad))
      invariant Pacing.Run(due, frame, nows, samples) && |nows| == |samples| <= |results|
      invariant c.failed.None? ==> |nows| == |results| && c.deadline == Pacing.Deadline(due, frame, nows, |results|)
      invariant c.failed.None? && results != [] ==> c.dev.clock >= samples[|results| - 1]
      invariant forall i | 0 <= i < |results| && results[i].Success? :: i < |nows|
      invariant results != [] && results[|results| - 1].Success? ==>
                  Holds(c.panel, c.asked, c.fbBuf[..], c.luma[..], c.chroma[..])
      invariant c.dev.log == old(c.dev.log) + Joined(made)
      invariant Heeded(results, made, requests, pending, c.dev.settable, wanted)
      invariant c.failed.None? ==> c.forceIdr == (results == [] && pending)
      invariant c.failed.None? ==> (!c.spsPpsFetched && c.dev.gettable) == (results == [] && wanted)
      decreases |requests| - |results|
    {
      ghost var before := c.failed;
      var r, t, calls := Turn(c, requests[|results|]);
      OneMoreHeeded(results, made, requests, pending, c.dev.settable, wanted, r, calls);
      JoinedSnoc(old(c.dev.log), made, calls);
      OneMoreResult(results, r, before, InputFits(c.rgb, c.panel, c.pad));
      results, made := results + [r], made + [calls];
      if before.None? {
        Pacing.RunSnoc(due, frame, nows, samples, t.entered, t.sampled);
        nows, samples := nows + [t.entered], samples + [t.sampled];
      }
    }
  }

  lemma NoResults(fits: bool, requests: seq<bool>, pending: bool, settable: bool, wanted: bool)
    ensures Sticky([]) && Faults([], fits) && Joined([]) == [] && Heeded([], [], requests, pending, settable, wanted)
  {
  }

  /** As many releases as acquisitions, of every kind. */
  ghost predicate GivenBack(closable: bool, log: seq<Call>) {
    && Count(log, TakeSlot) == Count(log, FreeSlot)
    && (closable ==> Count(log, MemOpen(true)) == Count(log, MemClose))
    && Count(log, Create(true)) == Count(log, Destroy)
    && Count(log, Vendor.Init(true)) == Count(log, Uninit)
    && Count(log, AllocBuffers(true)) == Count(log, ReleaseBuffers)
    && Count(log, GetBuffer(true)) == Count(log, Reclaim(true)) + Count(log, Reclaim(false))
    && Count(log, Reclaim(true)) == Count(log, ReturnBuffer)
    && Count(log, GetBitstream(true)) == Count(log, FreeBitstream)
  }

  /** A whole life: open, any number of calls with IDR requests among them, drop. Whatever
      failed, every resource is given back and the slot is free; and no access leaves a
      buffer if the input fits, as no frame comes out if it does not. A run that leaves a
      buffer ends there. */
  method Session(dev: Device, fb: Option<Panel>, req: Request, requests: seq<bool>)
    returns (results: seq<Result<Frame, Error>>)
    requires dev.Valid() && !dev.engine.slot
    modifies dev
    ensures !LeftABuffer(results) ==> dev.Valid() && !dev.engine.slot && GivenBack(dev.closable, dev.log)
    ensures results != [] ==> Refusal(fb, req).None? && Faults(results, InputFits(req.rgb, fb.value, PadFor(fb.value, req)))
    ensures |results| in {0, |requests|} || (|results| < |requests| && LeftABuffer(results))
    ensures Sticky(results)
  {
    hide Run, Step, Count, Nested, Refusal, PadFor, InputFits, EncoderCalls, BufferCalls, Holds;
    results := [];
    ghost var taken, nows, samples, made;
    var capture;
    capture, taken := Capture.OpenScaledEx(dev, fb, req);
    if capture.Success? {
      results, nows, samples, made := Frames(capture.value, requests);
      if LeftABuffer(results) {
        return;
      }
      var _ := capture.value.Drop();
    }
    Released(dev.closable, dev.log);
  }
}
