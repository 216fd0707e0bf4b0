# RG SP cast: a verified model

The RG SP handheld streams its screen and sound to a GameStream client: a capture object
drives a vendor video engine, a daemon feeds the frames and the audio to the protocol layer,
serves a control socket to the on-device UI, injects the client's input through uinput, and
points ALSA at a loopback while it runs. This project models the parts of that code whose
correctness does not show in any one function, and proves what they are for.

| module | models |
|---|---|
| `Bitstream` | AVCC to Annex-B conversion, the start-code walker and what is read off it, avcC records |
| `Vendor`, `Capture`, `Pacing` | the capture object over a vendor library that may fail at any call, and its frame pacing |
| `Surface`, `Grid`, `Nv12`, `Geometry` | the padded input surface, colour conversion, pillarbox arithmetic |
| `Notifier`, `Freshness`, `Subscribers`, `Control`, `Resolve` | change notification from the client manager to the UI, over a notifier that stores no permit |
| `Pad`, `PadDecode` | client packets to pad states to an evdev edge stream |
| `Video` | IDR coalescing, frame numbering, the 90 kHz clock |
| `Routing` | ownership of `.asoundrc` among daemon, hooks and foreign writers |
| `Audio` | re-chunking PCM reads into Opus frames |

Concurrency is interleaving: each protocol is a state machine whose steps are the points where
another actor may run, its theorems are about every reachable state or every run, and the
imperative loops are shown to make only runs of it with arbitrary steps of the others in
between. Vendor calls, clocks, disks and the kernel are arbitrary outcomes. A loop that never
ends in the program is followed to an arbitrary horizon.

## Where the code and what is said of it differ

The model follows the code. Each of these is proved.

- A conversion input whose first NAL is one byte long is taken for a start-code stream and
  passed through (`Bitstream.ConversionRoundTrip`).
- Prepending sets that end in 0 or in 00 00 01 can flip the IDR verdict of the unit behind them
  (`Bitstream.PrependSafeExactly`).
- `avcc_record_to_annexb` is said to return nothing for what does not parse; a truncated record
  gives the sets before the cut (`Bitstream.RecordTruncation`).
- The drain's comment fears that a fetch failure after empty segments is taken for the end of
  the list; it is reported as an error (`Capture.Capture.Drain`).
- The copy into the input buffer is said to stay inside it. The buffer is sized in u32 and
  written in usize, and a padded panel's pitch is not checked: a 4661x1 target for the 720x480
  panel, or a 16-bit panel sent as RGB with padding, is accepted at open and leaves a buffer in
  its first frame (`Capture.AcceptedFrameInside`, `Capture.WideTargetIsAccepted`,
  `Capture.NarrowPitchIsAccepted`).
- The keyframe flag and the bytes can disagree, on a segment emitted verbatim behind sets with
  an unclean tail, or in frame 0 behind bytes that are no sets. Exactly which stored bytes allow
  it is `Capture.FlagMatchesExactly` for later frames and `Capture.FirstFlagMatchesExactly` for
  the first.
- The encoder's pacing and the RTP clock are said never to disagree. The pace is a truncated
  number of nanoseconds: they stay together over all frames exactly for rates below 2^31 that
  divide 10^9, which 60 does not, and drift by under a nanosecond a frame for the others below
  2^31 (`Video.PaceAgreesExactly`, `Video.PaceDrift`, `Video.SixtyDrifts`).
- `padded` is said to mean that bars exist (`Geometry.BarsExactly`).
- Arrow keys are said to be tracked independently (`PadDecode.ArrowsAreNotIndependent`).
- `release_all` cannot undo what a failed write left pressed if the remembered state has it at
  rest (`Pad.ReleaseAfterPartialWrite`).
- The daemon and the hooks do not test the same marker (`Routing.TestsDisagree`,
  `Routing.LaunchSparesExactly`), and an unreadable foreign file is lost at engage and, with no
  snapshot, at release (`Routing.SessionRestores`, `Routing.ForeignWriteSurvives`).

## Model

| member | source | states |
|---|---|---|
| `Bitstream.AppendAvccAsAnnexB` | rgsp-cedar/src/bitstream.rs:17-44 | the loop appends exactly the conversion of its input and returns exactly how much the output grew; on input that does not parse nothing is appended |
| `Bitstream.ParseExact` | rgsp-cedar/src/bitstream.rs:21-44 | parsing gives a list of NALs if and only if the input is that list length-prefixed, followed by fewer than four stray bytes |
| `Bitstream.ConversionRoundTrip` | rgsp-cedar/src/bitstream.rs:17-44 | for every AVCC input, conversion puts a start code in front of each NAL, in order, if and only if the first NAL is not one byte long (or all are one byte long and nothing is left over): a length prefix of 1 is itself a start code |
| `Bitstream.HeadersComplete` | rgsp-cedar/src/bitstream.rs:74-96 | the list of header positions holds every position behind 00 00 01 once, ascending, and no other |
| `Bitstream.NextNal` | rgsp-cedar/src/bitstream.rs:74-96 | each turn of the walker, with its three- and four-byte start codes and its skipping, yields the next of those positions or ends after the last |
| `Bitstream.HeadersConcat` | rgsp-cedar/src/bitstream.rs:74-96 | the headers of a concatenation are the headers of the front, those that span the seam, and the headers of the back |
| `Bitstream.TypesConcat` | rgsp-cedar/src/bitstream.rs:74-96 | the same for the types a walk yields |
| `Bitstream.WalkRoundTrip` | rgsp-cedar/src/bitstream.rs:74-96 | walking start-code-prefixed NALs finds exactly their headers, in order, if and only if no payload holds a start code and none but the last ends in 00 00 01 (section B.1 of ITU-T H.264) |
| `Bitstream.WalkTypes` | rgsp-cedar/src/bitstream.rs:46-96 | over NALs whose first bytes are three bits of reference and five of type, the walker reads the types in order; the unit is an IDR one if and only if the first type in 1, 5 is 5, and opens with sets if and only if the first in 1, 5, 7, 8 is 7 or 8 (section 7.3.1 of ITU-T H.264) |
| `Bitstream.OneNal` | rgsp-cedar/src/bitstream.rs:91-92 | each of the 256 header bytes, alone behind a start code, is read as its low five bits |
| `Bitstream.EndToEnd` | rgsp-cedar/src/bitstream.rs:17-96 | conversion then walk: the same types and the same two answers for the access unit the NALs were encoded in, for emulation-free payloads and a first NAL of two bytes or more |
| `Bitstream.ConversionIdempotent` | rgsp-cedar/src/bitstream.rs:18-22 | a stream that opens with a start code comes back as it is, so converting twice is converting once |
| `Bitstream.FirstSliceIsIdr` | rgsp-cedar/src/bitstream.rs:48-56 | the loop answers whether the first type 1 or 5 among all headers of the unit is a 5 |
| `Bitstream.StartsWithParameterSets` | rgsp-cedar/src/bitstream.rs:59-70 | the loop answers whether the first of types 1, 5, 7, 8 among all headers is a 7 or 8 |
| `Bitstream.PrependVerdict` | rgsp-cedar/src/capture.rs:751-766 | what prepending does to the IDR verdict: only a slice header that spans the seam can change it |
| `Bitstream.PrependKeepsVerdict` | rgsp-cedar/src/capture.rs:751-766 | sets without a slice keep the verdict when they cannot end in the beginning of a start code, or when the unit opens with two zero bytes |
| `Bitstream.PrependSafeExactly` | rgsp-cedar/src/capture.rs:751-766 | sets without a slice are safe in front of every IDR unit if and only if they do not end in 0 or in 00 00 01 |
| `Bitstream.PrependOpensWithSets` | rgsp-cedar/src/capture.rs:751-766 | anything behind sets that open with a parameter set opens with one |
| `Bitstream.AvccRecordToAnnexB` | rgsp-cedar/src/bitstream.rs:105-146 | the two counting loops give the start-code-prefixed sets the record holds, and nothing for bytes that are not a record |
| `Bitstream.RecordTruncation` | rgsp-cedar/src/bitstream.rs:105-146 | for any printed record of at most 31 SPS and 255 PPS with 16-bit lengths, cut at any byte, exactly the sets wholly inside the cut come out, in order; uncut, all of them (section 5.2.4.1 of ISO/IEC 14496-15:2010) |
| `Bitstream.KeptExact` | rgsp-cedar/src/bitstream.rs:113-144 | set k is kept if and only if its last byte lies inside the cut |
| `Vendor.LegalLogNests` | rgsp-cedar/src/capture.rs:314-532 | after any legal sequence of vendor calls, whatever failed, acquisitions nest: a buffer only from an allocated pool of an initialised encoder over open memory under the slot |
| `Vendor.Conservation` | rgsp-cedar/src/capture.rs:377-963 | for any legal sequence, acquisitions equal releases plus what is held, of every kind; a buffer is submitted at most once a checkout and encoded at most once a submission |
| `Vendor.Released` | rgsp-cedar/src/capture.rs:930-963 | once the slot is free, everything ever acquired has been released, and every buffer checked out was asked back once |
| `Capture.Capture.OpenScaledEx` | rgsp-cedar/src/capture.rs:242-312 | one capture per process: the second open fails and touches nothing; success leaves exactly the calls of an open, the bitrate set before the init, the buffer sizes and the key-frame interval in machine arithmetic, the box of the target, the pace and a first deadline of now; every failure gives the slot back |
| `Capture.AcceptedExactly` | rgsp-cedar/src/capture.rs:323-360 | an open gets past the framebuffer if and only if the depth is 16 or 32, the size asked for is the panel's or 0, and an RGB copy without scaling has four bytes a pixel in u32 |
| `Capture.Capture.Init` | rgsp-cedar/src/capture.rs:314-532 | a refused framebuffer fails before any vendor call; success makes the encoder calls and then the buffer calls, and leaves a buffer checked out |
| `Capture.Capture.InitEncoder` | rgsp-cedar/src/capture.rs:378-455 | memory, encoder, bitrate when asked, init, in that order, each flag set as soon as its call succeeds |
| `Capture.Capture.InitBuffers` | rgsp-cedar/src/capture.rs:457-528 | the sizes in u32, allocation, the key-frame interval in i32 when it can be set, one checkout |
| `Capture.Capture.Drop` | rgsp-cedar/src/capture.rs:930-963 | teardown makes exactly the release calls for what is held, in reverse order, and frees the slot, from any state a failure can leave |
| `Capture.Capture.Next` | rgsp-cedar/src/capture.rs:543-843 | a failure repeats and touches nothing ever after; a read of nothing is an error, any other short one is counted and leaves the rest of the last image; the copy or conversion into the engine's buffer leaves a buffer exactly when the input does not fit; a success leaves there the picture, or the planes, of the panel buffer; its calls are one request for a key frame if one is pending and can be made, then flush, submit, encode, then one for the sets if wanted, each of these once, then the drain and the exchange; it returns the bytes of the segments drained with the sets they need, keeps the sets fetched once, and moves the deadline |
| `Capture.Capture.Grab` | rgsp-cedar/src/capture.rs:585-602 | the read and what follows it: an error for no bytes, an access outside a buffer exactly where the input does not fit, else the engine's buffer shows the panel buffer, bars included |
| `Capture.Capture.ConvertIntoInputBuffer` | rgsp-cedar/src/capture.rs:776-843 | the RGB copy into the surface, or the conversion for the panel's depth, over the capture's own buffers |
| `Capture.Capture.Encode` | rgsp-cedar/src/capture.rs:606-661 | forced key frame, flush, submit, encode, sets: the calls and the sets stored, which lead frame 0 |
| `Capture.Capture.Feed` | rgsp-cedar/src/capture.rs:609-646 | the request, the flush, the submission and the encode, in that order; what follows a failure is not called |
| `Capture.Capture.Drain` | rgsp-cedar/src/capture.rs:663-727 | every segment offered is fetched, appended and handed back in order until none is left or a fetch fails; the failure is an error exactly when nothing was appended |
| `Capture.Capture.Take` | rgsp-cedar/src/capture.rs:691-717 | one segment's bytes: both ring halves when the sizes add up in 32-bit arithmetic, else one run, verbatim when it is not AVCC |
| `Capture.Capture.FetchSpsPps` | rgsp-cedar/src/capture.rs:848-901 | the sets kept are those of the avcC record handed over, other bytes verbatim, nothing when empty or over 512 bytes |
| `Capture.Capture.Pace` | rgsp-cedar/src/capture.rs:562-581 | sleeps to the deadline, and moves it by one interval, or to one past the entry after a stall |
| `Capture.Session` | rgsp-cedar/src/capture.rs:242-963 | a whole life with every call failing or not and IDR requests at any time: every result after the first failure equal to it, no frame where the input does not fit and no access outside a buffer where it does; and, unless the run ended in one, as many releases as acquisitions of each kind and the slot free |
| `Capture.Frames` | rgsp-cedar/src/capture.rs:557-771 | the calls of a capture are a paced run; each frame asks for a key frame exactly if an IDR was requested since the frame before it, and only the first for the sets; after the first failure all results are that failure; an access outside a buffer ends the run; after a success the engine's one buffer shows the last panel, the bars cleared by the first frame only |
| `Capture.AcceptedFrameInside` | rgsp-cedar/src/capture.rs:776-843 | for every panel and request the checks at open accept, every clear, copy, read and write of a frame lies inside both buffers if and only if the panel is empty (nothing is ever read of it) or a condition on the panel and the padding holds, which nothing checks |
| `Capture.RgbShowsPanel` | rgsp-cedar/src/capture.rs:776-819 | after an RGB frame, byte x of panel row y stands padY rows down and padX pixels in, four bytes a pixel |
| `Capture.ConvertedShowsPanel` | rgsp-cedar/src/capture.rs:820-842 | after a converted frame, the luma byte of each pixel is within one of BT.601 of its blue, green and red bytes, or of the fields of its 16-bit word |
| `Capture.WideTargetIsAccepted` | rgsp-cedar/src/capture.rs:457-464 | a 720x480 panel for a 4661x1 target is accepted, and its first frame leaves the buffer |
| `Capture.NarrowPitchIsAccepted` | rgsp-cedar/src/capture.rs:189-198 | a padded 16-bit panel sent as RGB is accepted, and its frame is read from outside the panel buffer |
| `Capture.KeyframesCarrySets` | rgsp-cedar/src/capture.rs:751-771 | every frame handed out as a keyframe opens with a parameter set, if the stored sets do |
| `Capture.FrameShape` | rgsp-cedar/src/capture.rs:656-771 | a later frame that is no keyframe or opens with sets of its own is the drained unit unchanged, any other has the stored sets in front of it, and frame 0 has them once; the flag is the verdict of what was drained |
| `Capture.DrainedNals` | rgsp-cedar/src/capture.rs:669-731 | segments of whole length-prefixed NALs, split over the ring or in one run, come out as these NALs in the order they came, the front half of a ring before the back half, each behind a start code |
| `Capture.FrameOfNals` | rgsp-cedar/src/capture.rs:669-771 | and so a later frame is flagged, and given the sets, by the types of the NALs the encoder handed over |
| `Capture.FlagMatchesBytes` | rgsp-cedar/src/capture.rs:751-771 | the keyframe flag is the verdict of the bytes handed out, prepended sets included, when the sets have a clean tail or the unit opens with zeros |
| `Capture.FlagMatchesConverted` | rgsp-cedar/src/capture.rs:691-771 | so it is whenever the first segment that contributes was converted, on later frames for any sets without a slice |
| `Capture.FlagMatchesExactly` | rgsp-cedar/src/capture.rs:691-771 | for any stored bytes: on later frames it is for everything the vendor can hand over if and only if the first slice in them is an IDR slice, or they hold none and do not end in 0 or in 00 00 01 |
| `Capture.FirstFlagMatchesExactly` | rgsp-cedar/src/capture.rs:656-771 | for any stored bytes: in frame 0 it is for everything the vendor can hand over if and only if they hold a slice or open with a set, or else are not a lone zero and do not begin the header of a non-IDR slice where two copies of them meet |
| `Capture.FlagDisagrees` | rgsp-cedar/src/capture.rs:708-717 | for any other bytes without a slice, a segment emitted verbatim whose frame is flagged a keyframe and is none by its bytes |
| `Capture.FirstFrameDisagrees` | rgsp-cedar/src/capture.rs:656-766 | a lone zero stored as sets: frame 0 is flagged a keyframe and is none by its bytes |
| `Capture.RecordSetsQualify` | rgsp-cedar/src/capture.rs:891-900 | sets stored from any avcC record of emulation-free SPS and PPS open with a parameter set and hold no slice, and their tail is clean if and only if the last set does not end in 0 or in 00 00 01 |
| `Capture.OtherSetsAsGiven` | rgsp-cedar/src/capture.rs:876-901 | bytes that are no record are kept as given up to 512 of them, and nothing beyond |
| `Pacing.DeadlinesSpaced` | rgsp-cedar/src/capture.rs:562-581 | the k-th call after one entered at t finds a deadline of at least t plus k-1 intervals, whatever the delays |
| `Pacing.NoBurst` | rgsp-cedar/src/capture.rs:562-581 | and so samples no earlier than that: a stall costs at most one frame of catch-up |
| `Pacing.DeadlinesAdvance` | rgsp-cedar/src/capture.rs:574-581 | deadlines advance by at least one interval a call, and by exactly one each while and only while no call enters after its own slot |
| `Pacing.DeadlineStaysNear` | rgsp-cedar/src/capture.rs:574-581 | a deadline is at most one interval past the later of the one before and the entry, and at least one past the former |
| `Geometry.RoundExact` | rgsp-cedar/src/geometry.rs:45-57 | the u32 arithmetic gives the intended size if and only if neither the rounded size nor the fix-up leaves u32 |
| `Geometry.GrowBounds` | rgsp-cedar/src/geometry.rs:43-57 | the grown dimension is a multiple of 16 that holds the panel, within 8 pixels of the exact-aspect size, or under 16 where the fix-up fired, which never happens for a 16-aligned panel |
| `Geometry.PillarboxShape` | rgsp-cedar/src/geometry.rs:32-59 | for every target, exactly one dimension may grow, the one the aspect ratio asks for, to a multiple of 16, never cropping, centred to within one pixel, if and only if the fix-up of that dimension does not itself wrap |
| `Geometry.PillarboxBounds` | rgsp-cedar/src/geometry.rs:32-59 | and there the grown dimension is as close to the target's aspect ratio as the rounding allows |
| `Geometry.SameAspectIsUnpadded` | rgsp-cedar/src/geometry.rs:32-41 | the panel is used as it is if and only if no target is given or it has the panel's aspect ratio |
| `Geometry.SmallTargetsFit` | rgsp-cedar/src/geometry.rs:32-59 | nothing truncates for any dimensions up to 2^15 |
| `Geometry.BarsExactly` | rgsp-cedar/src/geometry.rs:14-15 | a padded result has bars if and only if the panel is not 16-aligned or the exact-aspect size is at least 8 larger |
| `Surface.InputSurface.Convert` | rgsp-cedar/src/capture.rs:776-819 | no access of a frame leaves a buffer of the size asked for in u32 if and only if the layout fits; then the whole surface is the latest panel inside the image rectangle and zero outside, although the bars are cleared by the first frame only |
| `Surface.Play` | rgsp-cedar/src/capture.rs:782-819 | the same over any number of frames through one buffer with arbitrary first contents |
| `Surface.ReadsInside` | rgsp-cedar/src/capture.rs:799-808 | every row read is inside the panel buffer if and only if a row of pixels fits the pitch |
| `Surface.ForTargetInside` | rgsp-cedar/src/capture.rs:343-360 | the image lies inside the surface for every target, for any panel not within 15 of 2^32 |
| `Surface.FrameInsideExactly` | rgsp-cedar/src/capture.rs:776-819 | for every layout accepted at open, the clears and copies, computed in usize, stay inside buffers sized in u32 if and only if a row fits its pitch, the surface is under 4 GB and its height has not wrapped, or, without bars, the panel buffer is under 4 GB |
| `Surface.TheDeviceFits` | rgsp-cedar/src/capture.rs:776-819 | the 720x480 panel of the device, padded for 1280x720, stays inside both buffers |
| `Surface.PaddedPixels` | rgsp-cedar/src/capture.rs:789-808 | with padding, byte x of panel row y stands in the picture padY rows down and padX pixels in |
| `Surface.BarsAreBlack` | rgsp-cedar/src/capture.rs:782-795 | and every byte of the surface outside that rectangle is 0 |
| `Surface.UnpaddedPixels` | rgsp-cedar/src/capture.rs:809-819 | without bars, byte x of surface row y is byte x of panel row y |
| `Nv12.LimitedRange` | rgsp-cedar/src/convert.rs:11-35 | on 8-bit channels luma lies in 16..235 and chroma in 16..240, both ends reached, so the clamp never fires |
| `Nv12.NearBt601` | rgsp-cedar/src/convert.rs:23-35 | on all channels the three formulas are within one of the limited-range matrix of ITU-R BT.601 |
| `Nv12.LumaPlaneShows` | rgsp-cedar/src/convert.rs:39-53 | luma byte y*w+x is within one of BT.601 of pixel (y, x), read off its bytes by the format |
| `Nv12.ChromaPlaneShows` | rgsp-cedar/src/convert.rs:55-81 | the two bytes of each block are within one of BT.601 of its four pixels' channel means, blue difference first, the edge row or column counting twice when a dimension is odd |
| `Nv12.FrameInsideExactly` | rgsp-cedar/src/convert.rs:39-129 | the slices taken over the planes lie inside the planes as sized in u32, every byte read of a pixel (three of four: alpha is not) inside the panel buffer, and every byte written inside its slice, if and only if the surface has under 2^32 pixels, the reads of a row fit its pitch and the planes hold what the loops write |
| `Nv12.UnpaddedFitsExactly` | rgsp-cedar/src/convert.rs:39-129 | without padding that condition is: under 2^32 pixels, reads that fit the pitch, even dimensions |
| `Nv12.ChromaFitsExactly` | rgsp-cedar/src/convert.rs:55-81 | an unpadded chroma plane holds what the loops write if and only if both dimensions are even |
| `Nv12.BgraToNv12` | rgsp-cedar/src/convert.rs:39-81 | for all dimensions, odd ones included, and any buffer that reaches the last byte read, the nested loops fill both planes with the per-pixel and per-block formulas and nothing past them |
| `Nv12.Rgb565ToNv12` | rgsp-cedar/src/convert.rs:99-129 | the same for 16-bit pixels |
| `Nv12.Image.LumaInRange` | rgsp-cedar/src/convert.rs:23-25 | no luma byte of either format leaves its range |
| `Nv12.Image.ChromaInRange` | rgsp-cedar/src/convert.rs:28-35 | no averaged chroma byte of either format leaves its range |
| `Nv12.Image.LumaAtPixel` | rgsp-cedar/src/convert.rs:45-53 | luma byte y*w+x of the plane is pixel (y, x) |
| `Nv12.Image.ChromaOfBlock` | rgsp-cedar/src/convert.rs:56-80 | bytes x and x+1 of chroma row y/2 are U and V of the averaged block at (y, x) |
| `Nv12.Image.ChromaAtBlock` | rgsp-cedar/src/convert.rs:55-81 | byte r*w+c of the plane is byte c of chroma row r, whatever the row before wrote past its end |
| `Freshness.NoLostWakeup` | rgsp-host/src/control.rs:180-219 | in every reachable state, a subscriber parked on an unfired registration with no notify owed has been sent the current state |
| `Freshness.SentInOrder` | rgsp-host/src/control.rs:180-219 | the snapshots sent are values the state has had, in the order it had them |
| `Freshness.QuiescentIsFresh` | rgsp-host/src/main.rs:269-341 | end to end: with watcher and subscriber parked and nobody between a write and its notify, the last message lists exactly the manager's clients, each under its id or fingerprint, with its address, and its name unless that is the constant, for any interleaving |
| `Freshness.ParkedHasPublished` | rgsp-host/src/main.rs:281-300 | so does the state as soon as the watcher is parked with no mutation left to notify |
| `Freshness.SettersAreKept` | rgsp-host/src/control.rs:146-154 | in every run the rest of the state is what its setters last said |
| `Freshness.StuckIsQuiescent` | rgsp-host/src/main.rs:269-300 | the daemon can make no further step of its own if and only if it is in that state |
| `Freshness.Settles` | rgsp-host/src/main.rs:269-300 | left alone it gets there in a bounded number of steps in whatever order, with the manager's lists unchanged |
| `Subscribers.Projects` | rgsp-host/src/control.rs:180-219 | with any number of subscribers, what one of them sees is a run of the single-subscriber machine |
| `Subscribers.NobodyLosesAWakeup` | rgsp-host/src/control.rs:180-219 | none loses a wakeup and each gets its snapshots in order |
| `Subscribers.EveryoneIsFresh` | rgsp-host/src/control.rs:180-219 | when no internal step is possible, every connected subscriber has been sent the manager's current lists |
| `Subscribers.Settling` | rgsp-host/src/control.rs:180-219 | the socket takes no more internal steps than the work its subscribers see |
| `Control.Daemon.Subscribe` | rgsp-host/src/control.rs:180-219 | the subscription loop, interleaved with anybody, makes only runs of the machine; it stops only at its horizon, parked with nothing fired, or closed, at a send or while parked, and what it sent is kept |
| `Control.Daemon.WatchClients` | rgsp-host/src/main.rs:281-341 | the watcher loop likewise, publishing both lists in every round; once parked with nothing left to notify, what is published lists the manager's clients |
| `Control.Daemon.Publish` | rgsp-host/src/main.rs:288-297 | each round publishes, client by client, the two lists the manager held when they were read |
| `Control.Daemon.SetCasting` | rgsp-host/src/control.rs:146-149 | the setter changes its field and no other, as the machine's write, its notify a separate step |
| `Control.Daemon.SetClient` | rgsp-host/src/control.rs:151-154 | the setter changes its field and no other, as the machine's write, its notify a separate step |
| `Control.Daemon.SetPending` | rgsp-host/src/control.rs:156-159 | the write and the notify are two of the machine's steps |
| `Control.Daemon.SetPaired` | rgsp-host/src/control.rs:161-164 | the write and the notify are two of the machine's steps |
| `Resolve.AnswerIsSound` | rgsp-host/src/control.rs:236-256 | true only if the last read saw the id gone, false only if one at or after the deadline saw it pending, and every earlier read saw it pending |
| `Resolve.NeverParkedOnGone` | rgsp-host/src/control.rs:236-256 | never parked on an unfired registration once the id is gone and a notify came after |
| `Resolve.GoneIsAnswered` | rgsp-host/src/control.rs:236-256 | and from there it answers true within three steps of its own |
| `Resolve.DeadlineIsAnswered` | rgsp-host/src/control.rs:236-256 | past the deadline with no fire pending it answers what is true within four steps of its own |
| `Resolve.Waiter.WaitUntilResolved` | rgsp-host/src/control.rs:236-256 | the loop, interleaved with anybody, reaches only states of a wait begun at the same moment for the same timeout; it answers true after a read that finds the id gone, false only after one at or past that timeout that does not; without an answer it is blocked before the timeout, or has read once a round to the horizon |
| `Pad.SetKeyBit` | rgsp-host/src/input.rs:122-130 | setting a key moves its own bit of the mask and no other, and an unknown code none |
| `Pad.KeysDecide` | rgsp-host/src/input.rs:111-135 | the mask is exactly the set of keys held |
| `Pad.ReportReplays` | rgsp-host/src/input.rs:200-233 | a stream that replays to the last state replays, with the report appended, to the new one, code by code |
| `Pad.ReportIsEdges` | rgsp-host/src/input.rs:200-233 | every event of a report changes what the device shows |
| `Pad.EdgesAlternate` | rgsp-host/src/input.rs:200-233 | so successive events of one code differ, and its first leaves 0: presses and releases alternate |
| `Pad.ReportWellFormed` | rgsp-host/src/input.rs:200-233 | a report names a code at most once and ends in its only SYN |
| `Pad.ReportAdvertised` | rgsp-host/src/input.rs:49-75 | a report of an in-range state uses advertised codes within their declared ranges |
| `Pad.PartialWrite` | rgsp-host/src/input.rs:226-231 | when a write fails part way, the device still shows the remembered state if and only if nothing was written |
| `Pad.ReleaseAfterPartialWrite` | rgsp-host/src/input.rs:237-239 | a release after such a failure leaves the device neutral if and only if no written code was at rest in the remembered state |
| `Pad.StuckFromNeutral` | rgsp-host/src/input.rs:237-239 | from rest, whatever a failed write got through stays, since the release then writes nothing |
| `Pad.StuckKey` | rgsp-host/src/input.rs:237-239 | the A button pressed as the write fails behind it stays down |
| `Pad.VirtualPad.Apply` | rgsp-host/src/input.rs:200-233 | emits the report of the two states, remembers the new one exactly when all of it was written, and keeps replay and true edges; written to a device in sync, ABS codes 16, 17, 3, 4, 5 show the two hat axes, the two stick axes and the trigger, and key i is down exactly when bit i of the mask is set |
| `Pad.DeviceShows` | rgsp-host/src/input.rs:200-233 | any device in sync shows the state's fields on these codes |
| `Pad.VirtualPad.ReleaseAll` | rgsp-host/src/input.rs:237-239 | from a device in sync, a release that is written leaves it neutral |
| `PadDecode.DecodeKeepsInv` | rgsp-host/src/input_decode.rs:138-209 | no packet, however malformed, takes the pad out of its ranges or presses a key the tables do not name |
| `PadDecode.ButtonsBit` | rgsp-host/src/input_decode.rs:173-175 | each entry of the button map drives its own key by its own flag, every other key is left alone |
| `PadDecode.FullPacketMeets` | rgsp-host/src/input_decode.rs:138-209 | a full-length controller packet sets every key and axis to what its own fields say |
| `PadDecode.HistoryIndependence` | rgsp-host/src/input_decode.rs:138-209 | an accepted packet's result is the same from all reachable states if and only if it is a controller packet that reaches the sticks |
| `PadDecode.PacketRoundTrip` | rgsp-host/src/input_decode.rs:138-209 | a multi-controller packet laid out as the client lays it out decodes to the buttons, triggers and signed sticks put in, from any reachable state |
| `PadDecode.AcceptedExactly` | rgsp-host/src/input_decode.rs:103-172 | exactly which packets are pad input, by their bytes |
| `PadDecode.CutPacketKeeps` | rgsp-host/src/input_decode.rs:172-209 | a controller packet cut short leaves the fields it does not reach |
| `PadDecode.FlagsTogether` | rgsp-host/src/input_decode.rs:17-30 | flags put together from distinct powers of two have exactly those |
| `PadDecode.DeviceShowsPacket` | rgsp-host/src/main.rs:522-555 | end to end: after a whole controller packet, whatever came before, a device in sync shows the packet's own bytes: each named key by its flag bit or the left trigger, every other key up, the hat, the two's-complement stick and the right trigger |
| `PadDecode.DeviceShowsKeyboard` | rgsp-host/src/input_decode.rs:83-118 | after a keyboard packet the key it stands for is down or up |
| `PadDecode.DeviceShowsArrow` | rgsp-host/src/input_decode.rs:118-132 | after an arrow packet its hat axis is at its end, or in the middle |
| `PadDecode.ArrowsAreNotIndependent` | rgsp-host/src/input_decode.rs:100-132 | an arrow key moves the hat as independently held flags would if and only if its opposite is not held |
| `PadDecode.InputTask.ApplyPacket` | rgsp-host/src/input_decode.rs:138-209 | the step-by-step decoder computes the decoding function, and leaves the state on a rejected packet |
| `PadDecode.InputTask.ApplyKeyboard` | rgsp-host/src/input_decode.rs:103-132 | the same for keyboard packets, the mapping loop included |
| `PadDecode.InputTask.Run` | rgsp-host/src/main.rs:522-555 | over any packets: every event emitted is an advertised true edge, the events before the release replay to the decoded state, and to the last packet's own bytes when it is a whole controller packet, and the release replays to neutral; after a failed write, exactly what got out, and when the release still reaches neutral |
| `Video.ForcedApart` | rgsp-host/src/video.rs:191-208 | over any run with concurrent requesters, an IDR forced by a request is asked for at least 750 ms after the previous forced one of either kind |
| `Video.DroppedHadOne` | rgsp-host/src/video.rs:191-208 | every request dropped had a forced IDR less than 750 ms before it; so the first of a session is never dropped |
| `Video.Numbering` | rgsp-host/src/video.rs:171-245 | frames between resets carry consecutive numbers and the first after a reset, like the first of all, is number 1 |
| `Video.RequestsAnswered` | rgsp-host/src/video.rs:195-208 | a reset request, whenever it lands, forces an IDR before the second frame after it; a recovery request is honoured or dropped by then |
| `Video.ControlAnswered` | rgsp-host/src/main.rs:629-655 | so every message of the client is answered: a reset by a reset, a request or an invalidation by a forced or dropped IDR, before the second frame after it |
| `Video.FrameCarriesItsTime` | rgsp-host/src/video.rs:215-243 | in any run, a frame carries the 90 kHz time its own number stands for to within a tick, until a counter wraps |
| `Video.NoDrift` | rgsp-host/src/video.rs:23-25 | before the wrap no timestamp is a whole tick from 90000*n/fps |
| `Video.StepsAreExact` | rgsp-host/src/video.rs:23-25 | read through the 32-bit wrap, the step between two frames is the exact time between them rounded down or up |
| `Video.IncreasingExactly` | rgsp-host/src/video.rs:23-25 | successive timestamps increase if and only if fps is at most 90000 |
| `Video.PaceAgreesExactly` | rgsp-host/src/video.rs:160-167 | the capture's truncated frame interval and the RTP clock give every frame the same time if and only if the rate is below 2^31 and divides 10^9 |
| `Video.PaceDrift` | rgsp-cedar/src/capture.rs:529 | below 2^31 the pace runs ahead by exactly the remainder of 10^9 by the rate, under a nanosecond a frame, and there is no pace at all above 10^9 frames a second |
| `Video.SixtyDrifts` | rgsp-cedar/src/capture.rs:529 | at 60 frames a second, frame 16668 is paced two 90 kHz ticks before its timestamp |
| `Video.VideoStream.Run` | rgsp-host/src/video.rs:142-245 | opens the capture for the 720x480 panel at the client's width, height and rate, cast to i32, with the bitrate capped at 6 Mbit/s; then the loop, its two flags written by others between any two steps, logs only runs of the machine, a frame for each round it completes |
| `Video.VideoStream.TakeRequests` | rgsp-host/src/video.rs:195-208 | taking the flags is the machine's steps, whatever arrives meanwhile |
| `Routing.SnapshotNeverOurs` | rgsp-host/src/routing.rs:82-96 | over any interleaving of engage, release, kill, both hooks and foreign writes, the snapshot is never this project's own content |
| `Routing.ReleaseNeverLatches` | rgsp-host/src/routing.rs:107-137 | the file is never ours after a release that can write, so a kill cannot latch the route |
| `Routing.SessionRestores` | rgsp-host/src/routing.rs:82-137 | engage, any hook runs, release: the file found is back byte for byte if and only if it was a foreign text or there was none |
| `Routing.ForeignWriteSurvives` | rgsp-host/src/routing.rs:107-137 | exactly which foreign writes made mid-cast survive the hooks and the release |
| `Routing.BootRecovers` | pak/hooks/boot.d/10-rgsp-aloop.sh:16-21 | after a kill, boot leaves no file either test calls ours |
| `Routing.TestsDisagree` | pak/hooks/pre-launch.d/10-rgsp-route.sh:14-20 | a foreign text that quotes the marker on a later line is not ours to the daemon, and is overwritten by a launch |
| `Routing.LaunchSparesExactly` | pak/hooks/pre-launch.d/10-rgsp-route.sh:14-29 | a launch leaves a foreign text alone if and only if no line of it starts with the marker |
| `Routing.CastSink.Release` | rgsp-host/src/routing.rs:107-137 | the steps of a release are the machine's, also when the disk refuses the write |
| `Routing.EngageSink` | rgsp-host/src/routing.rs:82-105 | the steps of an engage are the machine's: the marked body is written, and a foreign text is kept as the snapshot; a refused write leaves the file |
| `Routing.HooksTouchExactly` | pak/hooks/boot.d/10-rgsp-aloop.sh:16-21 | boot changes a file if and only if it is marked and no daemon lives; a launch if and only if one lives and the file is absent or marked and not the hook's own copy; neither touches the daemon's snapshot |
| `Routing.Disk.PreLaunchHook` | pak/hooks/pre-launch.d/10-rgsp-route.sh:8-29 | the hook writes its copy when a daemon lives and the file is absent or marked, and otherwise leaves the file byte for byte |
| `Routing.Disk.BootHook` | pak/hooks/boot.d/10-rgsp-aloop.sh:16-21 | the hook removes a marked file when no daemon lives, and otherwise leaves it byte for byte |
| `Audio.LoopbackCapture.Read` | rgsp-host/src/audio.rs:147-180 | overruns are counted and retried; the read fills its part of the buffer with the next samples and leaves the rest, or fails leaving all of it |
| `Audio.RunAudio` | rgsp-host/src/main.rs:578-621 | every chunk sent holds exactly 240 stereo frames; the chunks sent and the partial buffer are all samples read, in order; and they do not depend on how the driver cut its bursts |
| `Audio.ChunksUnique` | rgsp-host/src/main.rs:589-620 | there is one way to cut a stream into whole chunks and a remainder |
| `Audio.ChunksConserve` | rgsp-host/src/main.rs:589-620 | cutting loses nothing but a remainder shorter than a chunk |

## Left out

- The vendor library, ioctls, ALSA and uinput setup, `/dev/fb0`: their outcomes are arbitrary; a failed uinput write is taken to have written whole events.
- Struct layout, `_vendor_guard` and `ve_get_viraddr`: memory the vendor writes is not modelled, and the bytes it reports are taken to be readable.
- Termination of the vendor's own output: the segments offered in one frame are finitely many.
- Counters: `frames`, `short_reads`, `overrun_count` and presentation times do not wrap; timing statistics and logs are not kept.
- Rust arithmetic is modelled as it wraps in a release build, in the pillarbox and buffer sizes, the clears and copies, the pitch check, the segment sizes, the key-frame interval, the rate and bitrate casts, the RTP product and the frame number.
- Capture.Capture.Next: of a converted frame, only the bytes the loops write are known. After an access outside a buffer nothing more is called: the run ends there.
- The engine's one input buffer keeps its bytes from one frame to the next, as the code relies on for the bars.
- Nv12.BgraToNv12: for panels and planes that hold the accesses; a frame for which they do not is the out-of-bounds outcome of `Capture.Capture.Next`, by the exact condition of `Nv12.FrameInsideExactly`.
- Nv12.Rgb565ToNv12: for panels and planes that hold the accesses, likewise.
- The vendor is taken to allocate exactly the sizes asked for, and `usize` to have 64 bits.
- 16-bit pixels are read in the device's byte order, little-endian.
- Geometry.PillarboxBounds: its aspect-ratio part is for targets whose size fits u32 arithmetic, which `Geometry.RoundExact` shows to be exactly those whose size is the intended one; the placement is `Geometry.PillarboxShape`, for all targets.
- Bitstream.EndToEnd: assumes emulation-free payloads and a first NAL of two bytes or more, the conditions `Bitstream.WalkRoundTrip` and `Bitstream.ConversionRoundTrip` show to be exact for the walk and the conversion.
- Capture.KeyframesCarrySets: assumes stored sets that open with a parameter set; `Capture.RecordSetsQualify` gives that for records, bytes passed on verbatim are the vendor's.
- A ring half that does not parse on its own is dropped in the drain, as in the code, so no byte count is kept across it.
- Freshness.QuiescentIsFresh: the client manager notifies after every mutation, which is what `main.rs` documents of it; the vendored protocol code is not part of this model.
- Video.ForcedApart: the clock is monotonic and `Instant` subtraction at the start does not underflow.
- Routing.ReleaseNeverLatches: reads, writes and removals are each one step, all or nothing; a removal that fails without being reported leaves the file.
- Routing.SessionRestores: no foreign write in between; those are `Routing.ForeignWriteSurvives`.
- The audio-sink indicator, `PidFile`, JSON-RPC framing, PIN submission around `wait_until_resolved`, the latency and peak logs, the UI, the build and install scripts.
