/** The vendor video engine as the capture sees it: what may be called when.

    The libraries themselves are foreign code, so every call's outcome is arbitrary.
    What is fixed is the protocol: which calls are legal in which state. */
module Vendor {
  import opened Common

  /** The encoder parameters the capture sets. */
  datatype Param = Bitrate | KeyInterval | ForceKeyFrame

  /** Every call the capture makes, with its outcome where it has one. */
  datatype Call =
    | TakeSlot
    | FreeSlot
    | MemOpen(ok: bool)
    | MemClose
    | Create(ok: bool)
    | Destroy
    | Init(ok: bool)
    | Uninit
    | BufferSizes(luma: nat, chroma: nat)
    | AllocBuffers(ok: bool)
    | ReleaseBuffers
    | SetParameter(param: Param, setting: int, ok: bool)
    | GetParameter(ok: bool)
    | GetBuffer(ok: bool)
    | Flush
    | Submit(ok: bool)
    | Encode(ok: bool)
    | GetBitstream(ok: bool)
    | FreeBitstream
    | Reclaim(ok: bool)
    | ReturnBuffer

  /** The one input buffer of the pool. `Refused` is a buffer the engine would not
      hand back when asked. */
  datatype Pool = Idle | CheckedOut | Submitted | Rejected | Encoded | Reclaimed | Refused

  /** What is acquired. `closable`: the vendor's op table has a close entry at all. */
  datatype Engine = Engine(
    closable: bool, slot: bool, mem: bool, enc: bool, init: bool, bufs: bool, pool: Pool, lent: bool)

  const OUT: set<Pool> := {CheckedOut, Submitted, Rejected, Encoded}

  function Fresh(closable: bool): Engine {
    Engine(closable, false, false, false, false, false, Idle, false)
  }

  /** The effect of a call; None when the protocol forbids it. */
  function Step(e: Engine, c: Call): Option<Engine> {
    match c
    case TakeSlot => if !e.slot then Some(e.(slot := true)) else None
    case FreeSlot => if e.slot && !e.enc && !(e.mem && e.closable) then Some(e.(slot := false)) else None
    case MemOpen(ok) => if e.slot && !e.enc && !(e.mem && e.closable) then Some(e.(mem := e.mem || ok)) else None
    case MemClose => if e.mem && !e.enc && e.closable then Some(e.(mem := false)) else None
    case Create(ok) => if e.slot && e.mem && !e.enc then Some(e.(enc := ok)) else None
    case Destroy => if e.enc && !e.init then Some(e.(enc := false)) else None
    case Init(ok) => if e.enc && !e.init then Some(e.(init := ok)) else None
    case Uninit => if e.init && !e.bufs then Some(e.(init := false)) else None
    case BufferSizes(_, _) => if e.init && !e.bufs then Some(e) else None
    case AllocBuffers(ok) => if e.init && !e.bufs then Some(e.(bufs := ok)) else None
    case ReleaseBuffers =>
      if e.bufs && e.pool in {Idle, Refused} && !e.lent then Some(e.(bufs := false, pool := Idle)) else None
    case SetParameter(_, _, _) => if e.enc then Some(e) else None
    case GetParameter(_) => if e.enc then Some(e) else None
    case GetBuffer(ok) =>
      if e.bufs && e.pool in {Idle, Refused} && !e.lent then Some(if ok then e.(pool := CheckedOut) else e) else None
    case Flush => if e.pool == CheckedOut then Some(e) else None
    case Submit(ok) => if e.pool == CheckedOut then Some(e.(pool := if ok then Submitted else Rejected)) else None
    case Encode(ok) => if e.pool == Submitted then Some(e.(pool := if ok then Encoded else Rejected)) else None
    case GetBitstream(ok) => if e.pool == Encoded && !e.lent then Some(e.(lent := ok)) else None
    case FreeBitstream => if e.lent then Some(e.(lent := false)) else None
    case Reclaim(ok) => if e.pool in OUT && !e.lent then Some(e.(pool := if ok then Reclaimed else Refused)) else None
    case ReturnBuffer => if e.pool == Reclaimed then Some(e.(pool := Idle)) else None
  }

  /** The state after a whole log; None when some call in it was illegal. */
  function Run(closable: bool, log: seq<Call>): Option<Engine> {
    if log == [] then Some(Fresh(closable))
    else
      match Run(closable, log[..|log| - 1])
      case None => None
      case Some(e) => Step(e, log[|log| - 1])
  }

  lemma RunStep(closable: bool, log: seq<Call>, c: Call)
    ensures Run(closable, log + [c]) == match Run(closable, log)
                                        case None => None
                                        case Some(e) => Step(e, c)
  {
    assert (log + [c])[..|log|] == log;
  }

  /** Acquisitions nest: a buffer is out only from an allocated pool of an
      initialised encoder, over open memory, under the single slot. */
  predicate Nested(e: Engine) {
    && (e.pool != Idle ==> e.bufs)
    && (e.lent ==> e.pool == Encoded)
    && (e.bufs ==> e.init)
    && (e.init ==> e.enc)
    && (e.enc ==> e.mem && e.slot)
    && (e.mem && e.closable ==> e.slot)
  }

  lemma {:induction false} LegalLogNests(closable: bool, log: seq<Call>)
    requires Run(closable, log).Some?
    ensures Nested(Run(closable, log).value) && Run(closable, log).value.closable == closable
  {
    if log != [] {
      var front, c := log[..|log| - 1], log[|log| - 1];
      LegalLogNests(closable, front);
      assert Run(closable, log) == Step(Run(closable, front).value, c);
      StepNests(Run(closable, front).value, c);
    }
  }

  lemma StepNests(e: Engine, c: Call)
    requires Nested(e) && Step(e, c).Some?
    ensures Nested(Step(e, c).value) && Step(e, c).value.closable == e.closable
  {
  }

  function Count(log: seq<Call>, c: Call): nat {
    if log == [] then 0
    else Count(log[..|log| - 1], c) + if log[|log| - 1] == c then 1 else 0
  }

  function Held(b: bool): nat {
    if b then 1 else 0
  }

  lemma CountLast(log: seq<Call>, c: Call)
    requires log != []
    ensures Count(log, c) == Count(log[..|log| - 1], c) + Held(log[|log| - 1] == c)
  {
  }

  /** Nothing is leaked and nothing is released twice: the slot, the memory and the
      encoder. */
  predicate ProcessBalanced(log: seq<Call>, e: Engine) {
    && Count(log, TakeSlot) == Count(log, FreeSlot) + Held(e.slot)
    && (e.closable ==> Count(log, MemOpen(true)) == Count(log, MemClose) + Held(e.mem))
    && Count(log, Create(true)) == Count(log, Destroy) + Held(e.enc)
  }

  /** The same for what the encoder holds. */
  predicate EncoderBalanced(log: seq<Call>, e: Engine) {
    && Count(log, Init(true)) == Count(log, Uninit) + Held(e.init)
    && Count(log, AllocBuffers(true)) == Count(log, ReleaseBuffers) + Held(e.bufs)
    && Count(log, GetBitstream(true)) == Count(log, FreeBitstream) + Held(e.lent)
  }

  /** Every checkout ends in exactly one request to take the buffer back. */
  predicate CheckoutsBalanced(log: seq<Call>, e: Engine) {
    && Count(log, GetBuffer(true))
       == Count(log, Reclaim(true)) + Count(log, Reclaim(false)) + Held(e.pool in OUT)
    && Count(log, Reclaim(true)) == Count(log, ReturnBuffer) + Held(e.pool == Reclaimed)
  }

  /** A buffer is submitted at most once per checkout and encoded at most once per
      submission. */
  predicate SubmissionsBounded(log: seq<Call>, e: Engine) {
    && Count(log, Submit(true)) + Count(log, Submit(false)) + Held(e.pool == CheckedOut)
       <= Count(log, GetBuffer(true))
    && Count(log, Encode(true)) + Count(log, Encode(false)) + Held(e.pool == Submitted)
       <= Count(log, Submit(true))
  }

  lemma {:induction false} Conservation(closable: bool, log: seq<Call>)
    requires Run(closable, log).Some?
    ensures var e := Run(closable, log).value;
            ProcessBalanced(log, e) && EncoderBalanced(log, e) && CheckoutsBalanced(log, e) && SubmissionsBounded(log, e)
  {
    if log != [] {
      var front, c := log[..|log| - 1], log[|log| - 1];
      Conservation(closable, front);
      LegalLogNests(closable, front);
      var e := Run(closable, front).value;
      assert Run(closable, log) == Step(e, c);
      ProcessStep(log, e, c);
      EncoderStep(log, e, c);
      CheckoutsStep(log, e, c);
      SubmissionsStep(log, e, c);
    }
  }

  lemma ProcessStep(log: seq<Call>, e: Engine, c: Call)
    requires log != [] && log[|log| - 1] == c && Step(e, c).Some? && Nested(e)
    requires ProcessBalanced(log[..|log| - 1], e)
    ensures ProcessBalanced(log, Step(e, c).value)
  {
    hide Count;
    CountLast(log, TakeSlot);
    CountLast(log, FreeSlot);
    CountLast(log, MemOpen(true));
    CountLast(log, MemClose);
    CountLast(log, Create(true));
    CountLast(log, Destroy);
  }

  lemma EncoderStep(log: seq<Call>, e: Engine, c: Call)
    requires log != [] && log[|log| - 1] == c && Step(e, c).Some? && Nested(e)
    requires EncoderBalanced(log[..|log| - 1], e)
    ensures EncoderBalanced(log, Step(e, c).value)
  {
    hide Count;
    CountLast(log, Init(true));
    CountLast(log, Uninit);
    CountLast(log, AllocBuffers(true));
    CountLast(log, ReleaseBuffers);
    CountLast(log, GetBitstream(true));
    CountLast(log, FreeBitstream);
  }

  lemma CheckoutsStep(log: seq<Call>, e: Engine, c: Call)
    requires log != [] && log[|log| - 1] == c && Step(e, c).Some? && Nested(e)
    requires CheckoutsBalanced(log[..|log| - 1], e)
    ensures CheckoutsBalanced(log, Step(e, c).value)
  {
    hide Count;
    CountLast(log, GetBuffer(true));
    CountLast(log, Reclaim(true));
    CountLast(log, Reclaim(false));
    CountLast(log, ReturnBuffer);
  }

  lemma SubmissionsStep(log: seq<Call>, e: Engine, c: Call)
    requires log != [] && log[|log| - 1] == c && Step(e, c).Some? && Nested(e)
    requires SubmissionsBounded(log[..|log| - 1], e)
    ensures SubmissionsBounded(log, Step(e, c).value)
  {
    hide Count;
    CountLast(log, GetBuffer(true));
    CountLast(log, Submit(true));
    CountLast(log, Submit(false));
    CountLast(log, Encode(true));
    CountLast(log, Encode(false));
  }

  /** Once the slot is free, everything acquired has been released, whatever failed on
      the way: as many releases of each kind as acquisitions, and every buffer checked out
      was asked back once. */
  lemma Released(closable: bool, log: seq<Call>)
    requires Run(closable, log).Some? && !Run(closable, log).value.slot
    ensures Count(log, TakeSlot) == Count(log, FreeSlot)
    ensures closable ==> Count(log, MemOpen(true)) == Count(log, MemClose)
    ensures Count(log, Create(true)) == Count(log, Destroy)
    ensures Count(log, Init(true)) == Count(log, Uninit)
    ensures Count(log, AllocBuffers(true)) == Count(log, ReleaseBuffers)
    ensures Count(log, GetBitstream(true)) == Count(log, FreeBitstream)
    ensures Count(log, GetBuffer(true)) == Count(log, Reclaim(true)) + Count(log, Reclaim(false))
    ensures Count(log, Reclaim(true)) == Count(log, ReturnBuffer)
  {
    hide Count;
    LegalLogNests(closable, log);
    Conservation(closable, log);
  }

  // ---------------------------------------------------------------- the device

  /** One output buffer: up to two ring segments and their reported sizes. */
  datatype RawSegment = RawSegment(
    data0: Option<seq<Byte>>, size0: nat, data1: Option<seq<Byte>>, size1: nat, total: nat)
  {
    /** The split is trusted only when it adds up, in 32-bit arithmetic. */
    predicate Splits() {
      data0.Some? && size0 != 0 && (size0 + size1) % U32_LIMIT == total
    }

    /** The reported sizes lie inside what the pointers reach. */
    predicate Readable() {
      if Splits() then |data0.value| >= size0 && (data1.Some? ==> |data1.value| >= size1)
      else data0.Some? ==> |data0.value| >= total
    }
  }

  type Segment = s: RawSegment | s.Readable() witness RawSegment(None, 0, None, 0, 0)

  /** The process's view of the hardware. `log` is every call made so far. Three vendor
      entry points may be missing: the memory close, and the parameter setter and getter. */
  class Device {
    const closable: bool
    const settable: bool
    const gettable: bool
    var log: seq<Call>
    var engine: Engine
    /** Encoded output not yet fetched. */
    var pending: seq<Segment>
    var clock: int

    ghost predicate Valid()
      reads this`log, this`engine
    {
      Run(closable, log) == Some(engine) && engine.closable == closable && Nested(engine)
    }

    constructor (closable: bool, settable: bool, gettable: bool)
      ensures Valid() && log == [] && engine == Fresh(closable) && this.closable == closable
    {
      this.closable, this.settable, this.gettable := closable, settable, gettable;
      log, engine, pending, clock := [], Fresh(closable), [], *;
    }

    method Do(c: Call)
      requires Valid() && Step(engine, c).Some?
      modifies this`log, this`engine
      ensures Valid() && log == old(log) + [c] && engine == Step(old(engine), c).value
    {
      hide Run, Step, Nested;
      RunStep(closable, log, c);
      StepNests(engine, c);
      log := log + [c];
      engine := Step(engine, c).value;
    }

    method EncodeFrame() returns (ok: bool)
      requires Valid() && Step(engine, Encode(true)).Some?
      modifies this`log, this`engine, this`pending
      ensures Valid() && log == old(log) + [Encode(ok)] && engine == Step(old(engine), Encode(ok)).value
      ensures old(pending) <= pending
    {
      ok := *;
      Do(Encode(ok));
      if ok {
        var more: seq<Segment> := *;
        pending := pending + more;
      }
    }

    method FetchBitstream() returns (s: Option<Segment>)
      requires Valid() && Step(engine, GetBitstream(true)).Some? && pending != []
      modifies this`log, this`engine, this`pending
      ensures Valid() && log == old(log) + [GetBitstream(s.Some?)]
      ensures engine == Step(old(engine), GetBitstream(s.Some?)).value
      ensures s.None? ==> pending == old(pending)
      ensures s.Some? ==> s.value == old(pending)[0] && pending == old(pending)[1..]
    {
      var ok := *;
      Do(GetBitstream(ok));
      if ok {
        s := Some(pending[0]);
        pending := pending[1..];
      } else {
        s := None;
      }
    }

    /** The monotonic clock. */
    method Now() returns (t: int)
      modifies this`clock
      ensures t == clock >= old(clock)
    {
      t :| t >= clock;
      clock := t;
    }

    /** An uninterrupted sleep. */
    method Sleep(ns: nat)
      modifies this`clock
      ensures clock >= old(clock) + ns
    {
      var t :| t >= clock + ns;
      clock := t;
    }
  }
}
