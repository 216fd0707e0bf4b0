/** The frame loop: `rgsp-host/src/video.rs`, with the client's recovery requests as
    `rgsp-host/src/main.rs` forwards them. Requesters store to two flags at any moment;
    the loop swaps each flag out. Times are in milliseconds. */
module Video {
  import opened Common
  import Encoder = Capture
  import Geometry

  // ---------------------------------------------------------------- the 90 kHz clock

  const RTP_CLOCK_HZ := 90_000

  type Fps = x: nat | 0 < x < U32_LIMIT witness 1

  /** The client's rate; 0 would divide by zero below. */
  function ClampFps(negotiated: nat): (fps: Fps)
    requires negotiated < U32_LIMIT
  {
    if negotiated < 1 then 1 else negotiated
  }

  /** What a session asks for. */
  datatype Config = Config(width: Geometry.U32, height: Geometry.U32, fps: Fps, bitrate: Geometry.U32)

  const PANEL_WIDTH := 720
  const PANEL_HEIGHT := 480
  const BITRATE_CEILING := 6_000_000

  /** What the capture is opened with: rate and bitrate cross to i32, the bitrate capped. */
  function OpenRequest(cfg: Config): Encoder.Request {
    var bitrate := if cfg.bitrate < BITRATE_CEILING then cfg.bitrate else BITRATE_CEILING;
    Encoder.Request(PANEL_WIDTH, PANEL_HEIGHT, cfg.width, cfg.height, AsI32(cfg.fps), AsI32(bitrate), true)
  }

  const SECOND := 1_000_000_000

  /** The interval the capture paces its frames by, in nanoseconds. */
  function FrameNs(cfg: Config): nat {
    SECOND / Encoder.PacedFps(OpenRequest(cfg))
  }

  /** The casts keep every bitrate, and every rate below 2^31; above, the pace is 30. */
  lemma CastsKeep(cfg: Config)
    ensures OpenRequest(cfg).bitrate == if cfg.bitrate < 6_000_000 then cfg.bitrate else 6_000_000
    ensures Encoder.PacedFps(OpenRequest(cfg)) == if cfg.fps < 0x8000_0000 then cfg.fps else 30
  {
  }

  /** Frame n, paced, falls due when the RTP clock says frame n is: n/fps seconds in. */
  predicate InStep(cfg: Config, n: nat) {
    n * FrameNs(cfg) * cfg.fps == n * SECOND
  }

  /** Below 2^31 the pace is ahead of the clock by what the truncated interval drops, under
      a nanosecond a frame; above 10^9 it is no pace at all. */
  lemma PaceDrift(cfg: Config, n: nat)
    requires cfg.fps < 0x8000_0000
    ensures n * SECOND - n * FrameNs(cfg) * cfg.fps == n * (SECOND % cfg.fps)
    ensures n > 0 ==> 0 <= n * SECOND - n * FrameNs(cfg) * cfg.fps < n * cfg.fps
    ensures FrameNs(cfg) == 0 <==> cfg.fps > SECOND
  {
    CastsKeep(cfg);
    var q, m := SECOND / cfg.fps, SECOND % cfg.fps;
    hide OpenRequest, Encoder.PacedFps;
    assert FrameNs(cfg) == q && SECOND == q * cfg.fps + m;
    DriftOf(n, q, m, cfg.fps);
    if q == 0 {
      assert q * cfg.fps == 0;
    }
  }

  lemma DriftOf(n: nat, q: nat, m: nat, fps: nat)
    requires SECOND == q * fps + m && m < fps
    ensures n * SECOND - n * q * fps == n * m
    ensures n > 0 ==> n * m < n * fps
    ensures q > 0 ==> fps <= SECOND
  {
    assert n * (q * fps) == n * q * fps;
    assert n * SECOND == n * (q * fps) + n * m;
    if q > 0 {
      Scale(1, q, fps);
    }
  }

  /** The two stay together over all frames exactly for a rate that crosses the cast and
      divides a second's nanoseconds. */
  lemma PaceAgreesExactly(cfg: Config)
    ensures (forall n: nat :: InStep(cfg, n)) <==> cfg.fps < 0x8000_0000 && SECOND % cfg.fps == 0
  {
    if cfg.fps < 0x8000_0000 {
      forall n: nat ensures InStep(cfg, n) <==> n * (SECOND % cfg.fps) == 0 {
        PaceDrift(cfg, n);
      }
      hide FrameNs, InStep;
      assert InStep(cfg, 1) ==> SECOND % cfg.fps == 0;
    } else {
      CastsKeep(cfg);
      assert FrameNs(cfg) == 33_333_333;
      assert !InStep(cfg, 1);
    }
  }

  function Quotient(x: nat, d: nat): nat
    requires d > 0
  {
    x / d
  }

  /** `rtp_timestamp_for`: a u64 product, a division, a cast to u32. */
  function RtpTimestamp(n: nat, fps: Fps): (ts: nat)
    ensures ts < U32_LIMIT
  {
    Quotient(n * RTP_CLOCK_HZ % U64_LIMIT, fps) % U32_LIMIT
  }

  // ---------------------------------------------------------------- the machine

  const MIN_IDR_INTERVAL := 750

  datatype EncoderControl = Idr | Invalidate(first: nat, last: nat) | Reset

  /** Where the loop is. */
  datatype Pc =
    | Top
    | CheckIdr
    | ReadClock
    | Force(forReset: bool)
    | Stamp(forReset: bool, asked: nat)
    | Capture
    | Send
    | Stopped

  /** `Forced`: the capture was asked for an IDR at `asked`, `last_idr` set at `stamped`.
      `Dropped`: a request was discarded on the clock reading `at`. */
  datatype Event =
    | Forced(forReset: bool, asked: nat, stamped: nat)
    | Dropped(at: nat)
    | Sent(number: nat, timestamp: nat)

  datatype State = State(
    now: nat, idr: bool, reset: bool, pc: Pc, frameNumber: nat, lastIdr: int, fps: Fps, log: seq<Event>)

  datatype Action =
    | Tick(ms: nat)
    | Receive(control: EncoderControl)
    | Loop(ok: bool)

  function Start(now: nat, fps: Fps): State {
    State(now, false, false, Top, 0, now - MIN_IDR_INTERVAL, fps, [])
  }

  function Step(s: State, a: Action): Option<State> {
    match a
    case Tick(ms) => Some(s.(now := s.now + ms))
    case Receive(Reset) => Some(s.(reset := true))
    case Receive(_) => Some(s.(idr := true))
    case Loop(ok) => LoopStep(s, ok)
  }

  /** One atomic step of the loop; `ok` is the outcome of the calls that can fail. */
  function LoopStep(s: State, ok: bool): Option<State> {
    match s.pc
    case Top =>
      Some(if s.reset then s.(reset := false, frameNumber := 0, pc := Force(true)) else s.(pc := CheckIdr))
    case CheckIdr => Some(if s.idr then s.(idr := false, pc := ReadClock) else s.(pc := Capture))
    case ReadClock =>
      Some(
        if s.now - s.lastIdr >= MIN_IDR_INTERVAL then s.(pc := Force(false))
        else s.(log := s.log + [Dropped(s.now)], pc := Capture))
    case Force(forReset) => Some(s.(pc := Stamp(forReset, s.now)))
    case Stamp(forReset, asked) =>
      Some(s.(lastIdr := s.now, log := s.log + [Forced(forReset, asked, s.now)], pc := Capture))
    case Capture => Some(s.(pc := if ok then Send else Stopped))
    case Send =>
      var n := s.frameNumber + 1;
      Some(s.(frameNumber := n,
              log := s.log + [Sent(n % U32_LIMIT, RtpTimestamp(n, s.fps))],
              pc := if ok then Top else Stopped))
    case Stopped => None
  }

  function Exec(s: State, acts: seq<Action>): Option<State> {
    if acts == [] then Some(s)
    else
      match Exec(s, acts[..|acts| - 1])
      case None => None
      case Some(t) => Step(t, acts[|acts| - 1])
  }

  // ---------------------------------------------------------------- coalescing

  /** The last `last_idr` the log records. */
  function LastStamp(log: seq<Event>, start: int): int {
    if log == [] then start - MIN_IDR_INTERVAL
    else if log[|log| - 1].Forced? then log[|log| - 1].stamped
    else LastStamp(log[..|log| - 1], start)
  }

  /** The frame number the log leaves: restarted by a reset, one up per frame. */
  function Number(log: seq<Event>): nat {
    if log == [] then 0
    else
      match log[|log| - 1]
      case Forced(forReset, _, _) => if forReset then 0 else Number(log[..|log| - 1])
      case Dropped(_) => Number(log[..|log| - 1])
      case Sent(_, _) => Number(log[..|log| - 1]) + 1
  }

  /** A forced IDR that was a request's, not a reset's, came a whole interval after the
      previous stamp; a dropped request came less than one after it; a frame carries the
      next number and its timestamp. */
  predicate Justified(front: seq<Event>, e: Event, start: int, fps: Fps) {
    match e
    case Forced(forReset, asked, stamped) =>
      asked <= stamped && (!forReset ==> asked - LastStamp(front, start) >= MIN_IDR_INTERVAL)
    case Dropped(at) => at - LastStamp(front, start) < MIN_IDR_INTERVAL
    case Sent(number, timestamp) =>
      number == (Number(front) + 1) % U32_LIMIT && timestamp == RtpTimestamp(Number(front) + 1, fps)
  }

  predicate AllJustified(log: seq<Event>, start: int, fps: Fps) {
    forall k | 0 <= k < |log| :: Justified(log[..k], log[k], start, fps)
  }

  predicate Inv(s: State, start: int) {
    && AllJustified(s.log, start, s.fps)
    && s.lastIdr == LastStamp(s.log, start) <= s.now && start <= s.now
    && s.frameNumber == (if s.pc == Force(true) || (s.pc.Stamp? && s.pc.forReset) then 0 else Number(s.log))
    && (s.pc == Force(false) ==> s.now - s.lastIdr >= MIN_IDR_INTERVAL)
    && (s.pc.Stamp? ==>
          s.pc.asked <= s.now && (!s.pc.forReset ==> s.pc.asked - s.lastIdr >= MIN_IDR_INTERVAL))
  }

  lemma Logged(log: seq<Event>, e: Event, start: int, fps: Fps)
    requires AllJustified(log, start, fps) && Justified(log, e, start, fps)
    ensures AllJustified(log + [e], start, fps)
    ensures LastStamp(log + [e], start) == if e.Forced? then e.stamped else LastStamp(log, start)
    ensures Number(log + [e])
         == if e.Sent? then Number(log) + 1 else if e.Forced? && e.forReset then 0 else Number(log)
  {
    var all := log + [e];
    assert all[..|log|] == log;
    hide Justified;
    forall k | 0 <= k < |all| ensures Justified(all[..k], all[k], start, fps) {
      if k < |log| {
        assert all[..k] == log[..k];
      }
    }
  }

  lemma StepInv(s: State, a: Action, start: int)
    requires Inv(s, start) && Step(s, a).Some?
    ensures Inv(Step(s, a).value, start)
  {
    hide AllJustified, LastStamp, Number, RtpTimestamp;
    var t := Step(s, a).value;
    if t.log != s.log {
      var e := t.log[|s.log|];
      assert t.log == s.log + [e];
      Logged(s.log, e, start, s.fps);
    }
  }

  lemma {:induction false} RunInv(now: nat, fps: Fps, acts: seq<Action>)
    requires Exec(Start(now, fps), acts).Some?
    ensures Inv(Exec(Start(now, fps), acts).value, now)
    ensures Exec(Start(now, fps), acts).value.fps == fps
  {
    hide Inv, Step;
    if acts == [] {
      StartInv(now, fps);
    } else {
      var front := acts[..|acts| - 1];
      RunInv(now, fps, front);
      StepInv(Exec(Start(now, fps), front).value, acts[|acts| - 1], now);
      StepKeepsFps(Exec(Start(now, fps), front).value, acts[|acts| - 1]);
    }
  }

  lemma StartInv(now: nat, fps: Fps)
    ensures Inv(Start(now, fps), now)
  {
  }

  lemma StepKeepsFps(s: State, a: Action)
    requires Step(s, a).Some?
    ensures Step(s, a).value.fps == s.fps && s.log <= Step(s, a).value.log
  {
  }

  ghost predicate IsRun(now: nat, fps: Fps, log: seq<Event>) {
    exists acts :: Exec(Start(now, fps), acts).Some? && Exec(Start(now, fps), acts).value.log == log
  }

  lemma RunJustified(now: nat, fps: Fps, log: seq<Event>)
    requires IsRun(now, fps, log)
    ensures AllJustified(log, now, fps)
  {
    var acts :| Exec(Start(now, fps), acts).Some? && Exec(Start(now, fps), acts).value.log == log;
    RunInv(now, fps, acts);
  }

  lemma {:induction false} StampsGrow(log: seq<Event>, start: int, fps: Fps, j: nat, k: nat)
    requires AllJustified(log, start, fps) && j < k <= |log| && log[j].Forced?
    requires forall m | j < m < k :: !log[m].Forced?
    ensures LastStamp(log[..k], start) == log[j].stamped
    decreases k
  {
    assert log[..k][..k - 1] == log[..k - 1];
    if k - 1 > j {
      StampsGrow(log, start, fps, j, k - 1);
    }
  }

  lemma {:induction false} LastStampFrom(log: seq<Event>, start: int) returns (j: int)
    ensures -1 <= j < |log|
    ensures forall m | j < m < |log| :: !log[m].Forced?
    ensures j == -1 ==> LastStamp(log, start) == start - MIN_IDR_INTERVAL
    ensures j >= 0 ==> log[j].Forced? && LastStamp(log, start) == log[j].stamped
  {
    if log == [] {
      j := -1;
    } else if log[|log| - 1].Forced? {
      j := |log| - 1;
    } else {
      j := LastStampFrom(log[..|log| - 1], start);
    }
  }

  /** A request-forced IDR is asked for at least the interval after the previous forced
      IDR of either kind, with any number of other events between. */
  lemma ForcedApart(now: nat, fps: Fps, log: seq<Event>, j: nat, k: nat)
    requires IsRun(now, fps, log) && j < k < |log|
    requires log[j].Forced? && log[k].Forced? && !log[k].forReset
    requires forall m | j < m < k :: !log[m].Forced?
    ensures log[k].asked - log[j].stamped >= 750
    ensures log[k].asked - log[j].asked >= 750
  {
    RunJustified(now, fps, log);
    StampsGrow(log, now, fps, j, k);
    assert Justified(log[..k], log[k], now, fps) && Justified(log[..j], log[j], now, fps);
  }

  /** Every dropped request had a forced IDR inside the interval before it; in particular
      the first request of a session is never dropped. */
  lemma DroppedHadOne(now: nat, fps: Fps, log: seq<Event>, k: nat) returns (j: nat)
    requires IsRun(now, fps, log) && k < |log| && log[k].Dropped?
    ensures j < k && log[j].Forced? && log[k].at - log[j].stamped < 750
  {
    var acts :| Exec(Start(now, fps), acts).Some? && Exec(Start(now, fps), acts).value.log == log;
    RunJustified(now, fps, log);
    assert Justified(log[..k], log[k], now, fps);
    var i := LastStampFrom(log[..k], now);
    DroppedAfterStart(now, fps, acts, k);
    j := i;
  }

  lemma {:induction false} DroppedAfterStart(now: nat, fps: Fps, acts: seq<Action>, k: nat)
    requires Exec(Start(now, fps), acts).Some? && k < |Exec(Start(now, fps), acts).value.log|
    ensures Exec(Start(now, fps), acts).value.log[k].Dropped? ==> Exec(Start(now, fps), acts).value.log[k].at >= now
    decreases |acts|
  {
    hide RtpTimestamp;
    var front := acts[..|acts| - 1];
    var s := Exec(Start(now, fps), front).value;
    if k < |s.log| {
      DroppedAfterStart(now, fps, front, k);
      StepKeepsFps(s, acts[|acts| - 1]);
    } else {
      RunInv(now, fps, front);
    }
  }

  // ---------------------------------------------------------------- numbering

  /** Frames between two resets carry consecutive numbers, and the first after a reset,
      like the first of all, is number 1. */
  lemma Numbering(now: nat, fps: Fps, log: seq<Event>, j: nat, k: nat)
    requires IsRun(now, fps, log) && j <= k < |log| && log[k].Sent?
    requires forall m | j < m < k :: !log[m].Sent? && !(log[m].Forced? && log[m].forReset)
    ensures j < k && log[j].Sent? ==> log[k].number == (log[j].number + 1) % U32_LIMIT
    ensures j < k && log[j].Forced? && log[j].forReset ==> log[k].number == 1
    ensures j == 0 && (k == 0 || !log[0].Sent?) ==> log[k].number == 1
  {
    hide IsRun, AllJustified, Number;
    RunJustified(now, fps, log);
    SentNumber(log, now, fps, k);
    if j < k {
      NumberFlat(log, j + 1, k);
      NumberStep(log, j);
      if log[j].Sent? {
        SentNumber(log, now, fps, j);
        WrapsOnce(Number(log[..j]) + 1);
      }
    }
    if j == 0 {
      NumberFirst(log);
    }
  }

  lemma SentNumber(log: seq<Event>, start: int, fps: Fps, k: nat)
    requires AllJustified(log, start, fps) && k < |log| && log[k].Sent?
    ensures log[k].number == (Number(log[..k]) + 1) % U32_LIMIT
    ensures log[k].timestamp == RtpTimestamp(Number(log[..k]) + 1, fps)
  {
    hide RtpTimestamp, Number;
    assert Justified(log[..k], log[k], start, fps);
  }

  lemma NumberStep(log: seq<Event>, j: nat)
    requires j < |log|
    ensures Number(log[..j + 1]) == match log[j]
                                    case Sent(_, _) => Number(log[..j]) + 1
                                    case Forced(forReset, _, _) => if forReset then 0 else Number(log[..j])
                                    case Dropped(_) => Number(log[..j])
  {
    assert log[..j + 1][..j] == log[..j];
  }

  lemma NumberFirst(log: seq<Event>)
    ensures Number(log[..0]) == 0
  {
  }

  lemma WrapsOnce(n: nat)
    ensures (n + 1) % U32_LIMIT == (n % U32_LIMIT + 1) % U32_LIMIT
  {
  }

  lemma {:induction false} NumberFlat(log: seq<Event>, j: nat, k: nat)
    requires j <= k <= |log|
    requires forall m | j <= m < k :: !log[m].Sent? && !(log[m].Forced? && log[m].forReset)
    ensures Number(log[..k]) == Number(log[..j])
    decreases k
  {
    if j < k {
      assert log[..k][..k - 1] == log[..k - 1];
      NumberFlat(log, j, k - 1);
    }
  }

  // ---------------------------------------------------------------- no request is ignored

  function Sends(log: seq<Event>, from: nat): nat
    requires from <= |log|
    decreases |log| - from
  {
    if from == |log| then 0 else (if log[from].Sent? then 1 else 0) + Sends(log, from + 1)
  }

  lemma {:induction false} SendsSnoc(log: seq<Event>, e: Event, from: nat)
    requires from <= |log|
    ensures Sends(log + [e], from) == Sends(log, from) + if e.Sent? then 1 else 0
    decreases |log| - from
  {
    if from < |log| {
      SendsSnoc(log, e, from + 1);
    }
  }

  ghost predicate ResetForced(log: seq<Event>, from: nat) {
    exists k | from <= k < |log| :: log[k].Forced? && log[k].forReset
  }

  ghost predicate IdrDecided(log: seq<Event>, from: nat) {
    exists k | from <= k < |log| :: log[k].Forced? || log[k].Dropped?
  }

  /** Where a set reset flag can have got to, with `from` events logged before it was set. */
  ghost predicate ResetOwed(s: State, from: nat) {
    && from <= |s.log|
    && (ResetForced(s.log, from)
        || (if s.pc == Force(true) || (s.pc.Stamp? && s.pc.forReset) then Sends(s.log, from) <= 1
            else s.reset && (Sends(s.log, from) == 0 || (Sends(s.log, from) == 1 && s.pc in {Top, Stopped}))))
  }

  ghost predicate IdrOwed(s: State, from: nat) {
    && from <= |s.log|
    && (IdrDecided(s.log, from)
        || (if s.pc == ReadClock || s.pc.Force? || s.pc.Stamp? then Sends(s.log, from) <= 1
            else s.idr && (Sends(s.log, from) == 0 || (Sends(s.log, from) == 1 && s.pc in {Top, CheckIdr, Stopped}))))
  }

  lemma OwedStep(s: State, a: Action, from: nat)
    requires Step(s, a).Some?
    ensures ResetOwed(s, from) ==> ResetOwed(Step(s, a).value, from)
    ensures IdrOwed(s, from) ==> IdrOwed(Step(s, a).value, from)
  {
    hide Sends, RtpTimestamp;
    var t := Step(s, a).value;
    if t.log != s.log && from <= |s.log| {
      var e := t.log[|s.log|];
      assert t.log == s.log + [e];
      SendsSnoc(s.log, e, from);
      assert t.log[|s.log|] == e;
      assert forall k | from <= k < |s.log| :: t.log[k] == s.log[k];
    }
  }

  /** A reset request, whenever it lands, forces an IDR before the second frame after it;
      a recovery request is honoured, or dropped on a clock reading, before then. */
  lemma {:induction false} RequestsAnswered(s: State, acts: seq<Action>)
    requires Exec(s, acts).Some?
    ensures var log := Exec(s, acts).value.log;
            && s.log <= log
            && (s.reset && Sends(log, |s.log|) >= 2 ==> ResetForced(log, |s.log|))
            && (s.idr && Sends(log, |s.log|) >= 2 ==> IdrDecided(log, |s.log|))
  {
    OwedHolds(s, acts);
  }

  /** So is every message of the client, as it arrives: a reset request by a reset, a
      request for an IDR or an invalidation by a decision. */
  lemma ControlAnswered(s: State, control: EncoderControl, acts: seq<Action>)
    requires Exec(Step(s, Receive(control)).value, acts).Some?
    ensures var log := Exec(Step(s, Receive(control)).value, acts).value.log;
            && s.log <= log
            && (Sends(log, |s.log|) >= 2 ==> if control.Reset? then ResetForced(log, |s.log|) else IdrDecided(log, |s.log|))
  {
    RequestsAnswered(Step(s, Receive(control)).value, acts);
  }

  lemma {:induction false} OwedHolds(s: State, acts: seq<Action>)
    requires Exec(s, acts).Some?
    ensures s.log <= Exec(s, acts).value.log
    ensures s.reset ==> ResetOwed(Exec(s, acts).value, |s.log|)
    ensures s.idr ==> IdrOwed(Exec(s, acts).value, |s.log|)
  {
    hide Step;
    if acts != [] {
      hide ResetOwed, IdrOwed;
      var front, a := acts[..|acts| - 1], acts[|acts| - 1];
      OwedHolds(s, front);
      OwedStep(Exec(s, front).value, a, |s.log|);
      StepKeepsFps(Exec(s, front).value, a);
    }
  }

  // ---------------------------------------------------------------- timestamps

  /** Ticks since the clock's zero, before any wrap. */
  function Ticks(n: nat, fps: Fps): nat {
    Quotient(n * RTP_CLOCK_HZ, fps)
  }

  /** At 60 frames a second the pace has gained two ticks of the clock by frame 16668. */
  lemma SixtyDrifts(cfg: Config)
    requires cfg.fps == 60
    ensures FrameNs(cfg) == 16_666_666
    ensures Ticks(16_668, 60) == 25_002_000 && 16_668 * FrameNs(cfg) * RTP_CLOCK_HZ / SECOND == 25_001_998
  {
    CastsKeep(cfg);
  }

  /** The counter fits the u64 product and the tick count fits u32. */
  predicate BeforeWrap(n: nat, fps: Fps) {
    n * RTP_CLOCK_HZ < U64_LIMIT && Ticks(n, fps) < U32_LIMIT
  }

  lemma LessFactor(a: int, b: int, d: nat)
    requires a * d < b * d
    ensures a < b
  {
    if b <= a {
      Scale(b, a, d);
    }
  }

  lemma FloorBounds(x: nat, d: nat)
    requires d > 0
    ensures Quotient(x, d) * d <= x < (Quotient(x, d) + 1) * d
  {
  }

  lemma Floor(x: nat, d: nat, q: int)
    requires d > 0 && q * d <= x < (q + 1) * d
    ensures Quotient(x, d) == q
  {
    hide Quotient;
    FloorBounds(x, d);
    LessFactor(q, Quotient(x, d) + 1, d);
    LessFactor(Quotient(x, d), q + 1, d);
  }

  lemma SumOfFloors(x: nat, y: nat, d: nat)
    requires d > 0
    ensures Quotient(x, d) + Quotient(y, d) <= Quotient(x + y, d) <= Quotient(x, d) + Quotient(y, d) + 1
  {
    hide Quotient;
    FloorBounds(x, d);
    FloorBounds(y, d);
    FloorBounds(x + y, d);
    SumBounds(x, y, d, Quotient(x, d), Quotient(y, d), Quotient(x + y, d));
  }

  lemma SumBounds(x: nat, y: nat, d: nat, a: nat, b: nat, c: nat)
    requires a * d <= x < (a + 1) * d && b * d <= y < (b + 1) * d && c * d <= x + y < (c + 1) * d
    ensures a + b <= c <= a + b + 1
  {
    assert (a + b) * d == a * d + b * d;
    assert (a + b + 2) * d == (a + 1) * d + (b + 1) * d;
    LessFactor(a + b, c + 1, d);
    LessFactor(c, a + b + 2, d);
  }

  /** No frame's timestamp is a whole tick from the exact time. */
  lemma NoDrift(n: nat, fps: Fps)
    requires BeforeWrap(n, fps)
    ensures RtpTimestamp(n, fps) * fps <= n * 90_000 < (RtpTimestamp(n, fps) + 1) * fps
  {
    TimestampBeforeWrap(n, fps);
    hide RtpTimestamp, Quotient, BeforeWrap;
    FloorBounds(n * RTP_CLOCK_HZ, fps);
  }

  /** `to.wrapping_sub(from)`: how a receiver reads the 32-bit clock. */
  function Elapsed(from: nat, to: nat): nat {
    (to - from) % U32_LIMIT
  }

  lemma ElapsedModulo(a: nat, b: nat)
    ensures Elapsed(a % U32_LIMIT, b % U32_LIMIT) == Elapsed(a, b)
  {
  }

  /** The step between two frames m apart, read through the wrap of the 32-bit clock, is
      the exact time between them rounded down or up, at any frame number the u64 product
      holds. */
  lemma StepsAreExact(n: nat, m: nat, fps: Fps)
    requires (n + m) * RTP_CLOCK_HZ < U64_LIMIT
    ensures var step := Elapsed(RtpTimestamp(n, fps), RtpTimestamp(n + m, fps));
            step == Ticks(m, fps) % U32_LIMIT || step == (Ticks(m, fps) + 1) % U32_LIMIT
  {
    TimestampTicks(n, fps);
    TimestampTicks(n + m, fps);
    TicksAdd(n, m, fps);
    hide RtpTimestamp, Ticks;
    ElapsedModulo(Ticks(n, fps), Ticks(n + m, fps));
  }

  lemma TimestampTicks(n: nat, fps: Fps)
    requires n * RTP_CLOCK_HZ < U64_LIMIT
    ensures RtpTimestamp(n, fps) == Ticks(n, fps) % U32_LIMIT
  {
    hide Quotient;
    assert n * RTP_CLOCK_HZ % U64_LIMIT == n * RTP_CLOCK_HZ;
  }

  lemma TicksAdd(n: nat, m: nat, fps: Fps)
    ensures Ticks(n, fps) + Ticks(m, fps) <= Ticks(n + m, fps) <= Ticks(n, fps) + Ticks(m, fps) + 1
  {
    hide Quotient;
    var x, y := n * RTP_CLOCK_HZ, m * RTP_CLOCK_HZ;
    SumOfFloors(x, y, fps);
    assert (n + m) * RTP_CLOCK_HZ == x + y;
  }

  ghost predicate Increasing(fps: Fps) {
    forall n: nat | 1 <= n && BeforeWrap(n + 1, fps) :: RtpTimestamp(n, fps) < RtpTimestamp(n + 1, fps)
  }

  /** Successive frames have increasing timestamps exactly up to the clock's own rate. */
  lemma IncreasingExactly(fps: Fps)
    ensures Increasing(fps) <==> fps <= 90_000
  {
    hide RtpTimestamp, BeforeWrap;
    if fps <= RTP_CLOCK_HZ {
      forall n: nat | 1 <= n && BeforeWrap(n + 1, fps) ensures RtpTimestamp(n, fps) < RtpTimestamp(n + 1, fps) {
        NextTick(n, fps);
      }
    } else {
      SameTick(fps);
    }
  }

  lemma NextTick(n: nat, fps: Fps)
    requires fps <= RTP_CLOCK_HZ && BeforeWrap(n + 1, fps)
    ensures RtpTimestamp(n, fps) < RtpTimestamp(n + 1, fps)
  {
    hide RtpTimestamp, BeforeWrap, Ticks;
    TicksAdd(n, 1, fps);
    OneTick(fps);
    EarlierToo(n, fps);
    TimestampBeforeWrap(n, fps);
    TimestampBeforeWrap(n + 1, fps);
  }

  lemma TimestampBeforeWrap(n: nat, fps: Fps)
    requires BeforeWrap(n, fps)
    ensures RtpTimestamp(n, fps) == Ticks(n, fps) < U32_LIMIT
  {
    hide Quotient;
    TimestampTicks(n, fps);
  }

  lemma EarlierToo(n: nat, fps: Fps)
    requires BeforeWrap(n + 1, fps)
    ensures BeforeWrap(n, fps)
  {
    TicksAdd(n, 1, fps);
    assert n * RTP_CLOCK_HZ <= (n + 1) * RTP_CLOCK_HZ;
  }

  lemma OneTick(fps: Fps)
    ensures Ticks(1, fps) > 0 <==> fps <= RTP_CLOCK_HZ
  {
    hide Quotient;
    FloorBounds(RTP_CLOCK_HZ, fps);
    if fps <= RTP_CLOCK_HZ {
      LessFactor(1, Quotient(RTP_CLOCK_HZ, fps) + 1, fps);
    } else {
      Floor(RTP_CLOCK_HZ, fps, 0);
    }
  }

  /** Above 90000 frames a second, the frame a second in shares a tick with the next. */
  lemma SameTick(fps: Fps)
    requires fps > RTP_CLOCK_HZ
    ensures BeforeWrap(fps + 1, fps) && RtpTimestamp(fps, fps) == RtpTimestamp(fps + 1, fps)
  {
    Floor(fps * RTP_CLOCK_HZ, fps, RTP_CLOCK_HZ);
    Floor((fps + 1) * RTP_CLOCK_HZ, fps, RTP_CLOCK_HZ);
    TimestampTicks(fps, fps);
    TimestampTicks(fps + 1, fps);
  }

  lemma {:induction false} NumberAtMost(log: seq<Event>)
    ensures Number(log) <= |log|
  {
    if log != [] {
      NumberAtMost(log[..|log| - 1]);
    }
  }

  /** In any run, a frame carries the time its own number stands for, n/fps seconds, in
      90 kHz ticks and to within one, until either counter wraps. */
  lemma FrameCarriesItsTime(now: nat, fps: Fps, log: seq<Event>, k: nat)
    requires IsRun(now, fps, log) && k < |log| && log[k].Sent?
    requires |log| < U32_LIMIT && BeforeWrap(log[k].number, fps)
    ensures log[k].timestamp * fps <= log[k].number * 90_000 < (log[k].timestamp + 1) * fps
  {
    hide RtpTimestamp, BeforeWrap, Number, IsRun, AllJustified;
    RunJustified(now, fps, log);
    SentNumber(log, now, fps, k);
    NumberAtMost(log[..k]);
    assert log[k].number == Number(log[..k]) + 1;
    NoDrift(log[k].number, fps);
  }

  // ---------------------------------------------------------------- the loop

  /** The two flags are shared with the requesters; `log` is what the loop has done. `at`
      and `acts` follow the machine, one action per atomic step taken by anybody. */
  class VideoStream {
    const cfg: Config
    const fps: Fps := cfg.fps
    var idr: bool
    var reset: bool
    var now: nat
    var log: seq<Event>
    ghost var began: nat
    ghost var at: State
    ghost var acts: seq<Action>

    /** The machine, run from when the loop began, is at `pc` with these values of the
        loop's variables. */
    ghost predicate At(pc: Pc, frameNumber: nat, lastIdr: int)
      reads this
    {
      && at == State(now, idr, reset, pc, frameNumber, lastIdr, fps, log)
      && Exec(Start(began, fps), acts) == Some(at)
    }

    constructor (width: Geometry.U32, height: Geometry.U32, negotiated: Geometry.U32, bitrate: Geometry.U32, time: nat)
      ensures cfg == Config(width, height, if negotiated == 0 then 1 else negotiated, bitrate) && !idr && !reset
    {
      cfg := Config(width, height, ClampFps(negotiated), bitrate);
      idr, reset, now, log := false, false, time, [];
    }

    ghost method Did(a: Action)
      requires Exec(Start(began, fps), acts) == Some(at) && Step(at, a).Some?
      modifies `at, `acts
      ensures Exec(Start(began, fps), acts) == Some(at) && Some(at) == Step(old(at), a)
    {
      assert (acts + [a])[..|acts|] == acts;
      acts := acts + [a];
      at := Step(at, a).value;
    }

    /** Between two steps of the loop: time passes and requests arrive, in any number and
        order. */
    method Others(ghost pc: Pc, ghost frameNumber: nat, ghost lastIdr: int)
      requires At(pc, frameNumber, lastIdr)
      modifies `idr, `reset, `now, `at, `acts
      ensures At(pc, frameNumber, lastIdr)
    {
      var n: nat :| n >= 0;
      for k := 0 to n
        invariant At(pc, frameNumber, lastIdr)
      {
        if * {
          var ms: nat :| ms >= 0;
          now := now + ms;
          Did(Tick(ms));
        } else if * {
          reset := true;
          Did(Receive(Reset));
        } else {
          idr := true;
          Did(Receive(Idr));
        }
      }
    }

    method ForceIdr(forReset: bool, ghost frameNumber: nat, ghost lastIdr: int) returns (stamped: nat)
      requires At(Force(forReset), frameNumber, lastIdr)
      modifies `idr, `reset, `now, `log, `at, `acts
      ensures At(Capture, frameNumber, stamped)
      ensures Sends(log, 0) == Sends(old(log), 0)
    {
      Others(Force(forReset), frameNumber, lastIdr);
      var asked := now;
      Did(Loop(true));
      Others(Stamp(forReset, asked), frameNumber, lastIdr);
      stamped := now;
      SendsSnoc(log, Forced(forReset, asked, stamped), 0);
      log := log + [Forced(forReset, asked, stamped)];
      Did(Loop(true));
    }

    /** Take the flags: a reset is always honoured, a request only when the last forced IDR
        is old enough. */
    method TakeRequests(frameNumber: nat, lastIdr: int) returns (number: nat, stamped: int)
      requires At(Top, frameNumber, lastIdr)
      modifies `idr, `reset, `now, `log, `at, `acts
      ensures At(Capture, number, stamped)
      ensures Sends(log, 0) == Sends(old(log), 0)
    {
      hide Exec;
      number, stamped := frameNumber, lastIdr;
      var wasReset := reset;
      reset := false;
      Did(Loop(true));
      if wasReset {
        number := 0;
        stamped := ForceIdr(true, number, stamped);
      } else {
        Others(CheckIdr, number, stamped);
        var wasIdr := idr;
        idr := false;
        Did(Loop(true));
        if wasIdr {
          Others(ReadClock, number, stamped);
          if now - stamped >= MIN_IDR_INTERVAL {
            Did(Loop(true));
            stamped := ForceIdr(false, number, stamped);
          } else {
            SendsSnoc(log, Dropped(now), 0);
            log := log + [Dropped(now)];
            Did(Loop(true));
          }
        }
      }
    }

    /** Capture one frame and send it under the next number. */
    method SendFrame(frameNumber: nat, ghost lastIdr: int) returns (ok: bool, number: nat)
      requires At(Capture, frameNumber, lastIdr)
      modifies `idr, `reset, `now, `log, `at, `acts
      ensures ok ==> At(Top, number, lastIdr) && number == frameNumber + 1 && Sends(log, 0) == Sends(old(log), 0) + 1
      ensures Exec(Start(began, fps), acts) == Some(at) && at.log == log
    {
      hide Exec;
      Others(Capture, frameNumber, lastIdr);
      number := frameNumber;
      ok := *;
      Did(Loop(ok));
      if ok {
        Others(Send, frameNumber, lastIdr);
        number := frameNumber + 1;
        var frame := Sent(number % U32_LIMIT, RtpTimestamp(number, fps));
        SendsSnoc(log, frame, 0);
        log := log + [frame];
        ok := *;
        Did(Loop(ok));
      }
    }

    /** The loop, up to a horizon of frames; it leaves earlier only when the open, a capture
        or a send fails. Whatever the requesters do meanwhile, its log is a run's. */
    method Run(horizon: nat) returns (failed: bool, request: Encoder.Request)
      modifies this
      ensures request.width == 720 && request.height == 480 && request.rgb
      ensures request.dstW == cfg.width && request.dstH == cfg.height
      ensures request.fps == AsI32(cfg.fps)
      ensures request.bitrate == if cfg.bitrate < 6_000_000 then cfg.bitrate else 6_000_000
      ensures IsRun(began, fps, log) && began >= old(now)
      ensures !failed ==> Sends(log, 0) == horizon
    {
      hide Exec;
      request := OpenRequest(cfg);
      CastsKeep(cfg);
      log := [];
      Opening();
      began := now;
      StartRun();
      failed := *;
      if failed {
        return;
      }
      var frameNumber: nat, lastIdr: int := 0, now - MIN_IDR_INTERVAL;
      var k := 0;
      failed := false;
      while k < horizon && !failed
        invariant k <= horizon && began >= old(now)
        invariant Exec(Start(began, fps), acts) == Some(at) && at.log == log
        invariant !failed ==> At(Top, frameNumber, lastIdr) && Sends(log, 0) == k
        decreases horizon - k, !failed
      {
        Others(Top, frameNumber, lastIdr);
        frameNumber, lastIdr := TakeRequests(frameNumber, lastIdr);
        var ok;
        ok, frameNumber := SendFrame(frameNumber, lastIdr);
        failed := !ok;
        k := if ok then k + 1 else k;
      }
    }

    /** Opening takes its time, and requests may arrive meanwhile. */
    method Opening()
      modifies `idr, `reset, `now
      ensures now >= old(now)
    {
      var ms: nat :| ms >= 0;
      now := now + ms;
      idr, reset := *, *;
    }

    /** Flags set before the loop began count as requests at its start. */
    ghost method StartRun()
      requires began == now && log == []
      modifies `at, `acts
      ensures At(Top, 0, now - MIN_IDR_INTERVAL)
    {
      at, acts := Start(now, fps), [];
      if idr {
        Did(Receive(Idr));
      }
      if reset {
        Did(Receive(Reset));
      }
    }
  }
}
