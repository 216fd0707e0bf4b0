/** PCM from the loopback to the Opus encoder: the retry loop of `rgsp-host/src/audio.rs`
    and the re-chunking loop `run_audio` of `rgsp-host/src/main.rs`. */
module Audio {
  import opened Common

  const CHANNELS := 2
  const PERIOD_FRAMES := 240
  const CHUNK := PERIOD_FRAMES * CHANNELS

  type Sample = x: int | -32768 <= x <= 32767

  /** What the driver has to offer, in order. A burst is handed out in as many reads as the
      reader's space makes of it; an overrun may or may not be recovered from. The end of
      the tape ends the run that is looked at, as a fault does. */
  datatype Reply = Burst(samples: seq<Sample>) | Overrun(recovered: bool) | Fault

  /** The driver deals in whole frames. */
  predicate WholeFrames(tape: seq<Reply>) {
    forall k | 0 <= k < |tape| && tape[k].Burst? :: |tape[k].samples| % CHANNELS == 0
  }

  /** Every sample the driver delivers before it gives up or delivers nothing. */
  function Stream(tape: seq<Reply>): seq<Sample> {
    if tape == [] then []
    else
      match tape[0]
      case Burst(samples) => if samples == [] then [] else samples + Stream(tape[1..])
      case Overrun(recovered) => if recovered then Stream(tape[1..]) else []
      case Fault => []
  }

  /** The stream cut into whole chunks; a last partial one is left out. */
  function Chunks(samples: seq<Sample>): seq<seq<Sample>> {
    if |samples| < CHUNK then [] else [samples[..CHUNK]] + Chunks(samples[CHUNK..])
  }

  function Flatten(chunks: seq<seq<Sample>>): seq<Sample> {
    if chunks == [] then [] else Flatten(chunks[..|chunks| - 1]) + chunks[|chunks| - 1]
  }

  predicate WholeChunks(chunks: seq<seq<Sample>>) {
    forall k | 0 <= k < |chunks| :: |chunks[k]| == CHUNK
  }

  lemma {:induction false} FlattenCons(c: seq<Sample>, chunks: seq<seq<Sample>>)
    ensures Flatten([c] + chunks) == c + Flatten(chunks)
    decreases |chunks|
  {
    var all := [c] + chunks;
    if chunks == [] {
      assert all[..0] == chunks;
    } else {
      assert all[..|all| - 1] == [c] + chunks[..|chunks| - 1];
      FlattenCons(c, chunks[..|chunks| - 1]);
    }
  }

  lemma FlattenSnoc(chunks: seq<seq<Sample>>, c: seq<Sample>)
    ensures Flatten(chunks + [c]) == Flatten(chunks) + c
  {
    assert (chunks + [c])[..|chunks|] == chunks;
  }

  /** There is one way to cut a stream into whole chunks and a remainder. */
  lemma {:induction false} ChunksUnique(chunks: seq<seq<Sample>>, rest: seq<Sample>)
    requires WholeChunks(chunks)
    ensures Chunks(Flatten(chunks) + rest) == chunks + Chunks(rest)
    decreases |chunks|
  {
    if chunks == [] {
      assert Flatten(chunks) + rest == rest;
    } else {
      var c, later := chunks[0], chunks[1..];
      assert chunks == [c] + later;
      FlattenCons(c, later);
      ChunksUnique(later, rest);
      var all := Flatten(chunks) + rest;
      assert all[..CHUNK] == c && all[CHUNK..] == Flatten(later) + rest;
    }
  }

  /** Cutting loses nothing but the remainder. */
  lemma {:induction false} ChunksConserve(samples: seq<Sample>)
    ensures WholeChunks(Chunks(samples))
    ensures |Flatten(Chunks(samples))| == |samples| - |samples| % 480
    ensures Flatten(Chunks(samples)) <= samples
    decreases |samples|
  {
    if |samples| >= CHUNK {
      var later := samples[CHUNK..];
      ChunksConserve(later);
      FlattenCons(samples[..CHUNK], Chunks(later));
      assert samples == samples[..CHUNK] + later;
    }
  }

  // ---------------------------------------------------------------- reading

  /** The tape once the overruns at its head have been recovered from. */
  function Recover(tape: seq<Reply>): seq<Reply> {
    if tape != [] && tape[0] == Overrun(true) then Recover(tape[1..]) else tape
  }

  function Taken(space: nat, samples: seq<Sample>): nat {
    if space < |samples| then space else |samples|
  }

  /** The tape after a read into this much space. */
  function AfterRead(tape: seq<Reply>, space: nat): seq<Reply>
    requires tape != [] && tape[0].Burst?
  {
    var samples := tape[0].samples;
    if space < |samples| then [Burst(samples[space..])] + tape[1..] else tape[1..]
  }

  lemma {:induction false} RecoverKeeps(tape: seq<Reply>)
    ensures Stream(Recover(tape)) == Stream(tape)
    ensures WholeFrames(tape) ==> WholeFrames(Recover(tape))
    ensures Recover(tape) != [] ==> Recover(tape)[0] != Overrun(true)
  {
    if tape != [] && tape[0] == Overrun(true) {
      RecoverKeeps(tape[1..]);
    }
  }

  /** A read takes the next samples off the stream. */
  lemma ReadAdvances(tape: seq<Reply>, space: nat)
    requires tape != [] && tape[0].Burst? && tape[0].samples != [] && space > 0
    requires WholeFrames(tape) && space % CHANNELS == 0
    ensures var n := Taken(space, tape[0].samples);
            && n % CHANNELS == 0 && n > 0
            && Stream(tape) == tape[0].samples[..n] + Stream(AfterRead(tape, space))
            && WholeFrames(AfterRead(tape, space))
  {
    var samples := tape[0].samples;
    assert |samples| % CHANNELS == 0;
    if space < |samples| {
      var after := AfterRead(tape, space);
      assert after[1..] == tape[1..];
      assert samples == samples[..space] + samples[space..];
      assert |samples[space..]| % CHANNELS == 0;
      assert forall k | 1 <= k < |tape| :: after[k] == tape[k];
    } else {
      assert samples[..|samples|] == samples;
      assert forall k | 1 <= k < |tape| :: tape[1..][k - 1] == tape[k];
    }
  }

  datatype ReadError = Readi | NotRecovered

  class LoopbackCapture {
    var tape: seq<Reply>
    var overrunCount: nat

    constructor (offered: seq<Reply>)
      ensures tape == offered && overrunCount == 0
    {
      tape, overrunCount := offered, 0;
    }

    /** Fill `buf` from `from` on; an overrun is recovered from and retried. Returns the
        number of frames. */
    method Read(buf: array<Sample>, from: nat) returns (r: Result<nat, ReadError>)
      requires from <= buf.Length && (buf.Length - from) % CHANNELS == 0 && WholeFrames(tape)
      modifies this, buf
      ensures var t := Recover(old(tape));
              && (r.Success? <==> t != [] && t[0].Burst?)
              && (r.Success? ==>
                    var n := Taken(buf.Length - from, t[0].samples);
                    && n % CHANNELS == 0 && r.value == n / CHANNELS
                    && buf[..] == old(buf[..from]) + t[0].samples[..n] + old(buf[from + n..])
                    && tape == AfterRead(t, buf.Length - from)
                    && overrunCount == old(overrunCount) + |old(tape)| - |t|)
              && (r.Failure? ==> buf[..] == old(buf[..]))
    {
      var space := buf.Length - from;
      ghost var start := tape;
      while tape != []
        invariant Recover(tape) == Recover(start) && WholeFrames(tape) && buf[..] == old(buf[..])
        invariant overrunCount == old(overrunCount) + |start| - |tape|
        decreases |tape|
      {
        var reply := tape[0];
        match reply {
          case Burst(samples) =>
            var n := if space < |samples| then space else |samples|;
            for k := 0 to n
              invariant forall i | 0 <= i < k :: buf[from + i] == samples[i]
              invariant forall i | 0 <= i < buf.Length && !(from <= i < from + k) :: buf[i] == old(buf[i])
              invariant tape == Recover(start) && overrunCount == old(overrunCount) + |start| - |tape|
            {
              buf[from + k] := samples[k];
            }
            assert buf[..] == old(buf[..from]) + samples[..n] + old(buf[from + n..]);
            assert |samples| % CHANNELS == 0;
            tape := if n < |samples| then [Burst(samples[n..])] + tape[1..] else tape[1..];
            return Success(n / CHANNELS);
          case Overrun(recovered) =>
            overrunCount := overrunCount + 1;
            if !recovered {
              return Failure(NotRecovered);
            }
            tape := tape[1..];
          case Fault =>
            return Failure(Readi);
        }
      }
      return Failure(Readi);
    }
  }

  // ---------------------------------------------------------------- re-chunking

  datatype Stop = ReadFailed(error: ReadError) | NoFrames | Closed

  /** One read appends the next samples of the stream to the first `filled` frames. */
  method Append(capture: LoopbackCapture, buf: array<Sample>, filled: nat) returns (r: Result<nat, ReadError>)
    requires WholeFrames(capture.tape) && buf.Length == CHUNK && filled < PERIOD_FRAMES
    modifies capture, buf
    ensures r.Failure? || r.value == 0 ==>
              Stream(old(capture.tape)) == [] && buf[..filled * CHANNELS] == old(buf[..filled * CHANNELS])
    ensures r.Success? && r.value > 0 ==>
              && WholeFrames(capture.tape)
              && filled + r.value <= PERIOD_FRAMES
              && |Stream(capture.tape)| < |Stream(old(capture.tape))|
              && old(buf[..filled * CHANNELS]) + Stream(old(capture.tape))
                 == buf[..(filled + r.value) * CHANNELS] + Stream(capture.tape)
  {
    hide Stream;
    var from := filled * CHANNELS;
    ghost var was, tape := buf[..from], Recover(capture.tape);
    RecoverKeeps(capture.tape);
    r := capture.Read(buf, from);
    if r.Failure? || r.value == 0 {
      EndOfStream(tape);
      assert buf[..from] == was;
    } else {
      var n := r.value * CHANNELS;
      ReadAdvances(tape, CHUNK - from);
      assert buf[..from + n] == was + tape[0].samples[..n];
    }
  }

  lemma NoneSent()
    ensures Flatten([]) == []
  {
  }

  /** Send whole chunks until a read or a send fails. However the driver cuts its bursts,
      the chunks sent are the stream's own; nothing is lost, repeated or reordered, and what
      is left in the buffer is the stream's remainder. */
  method RunAudio(capture: LoopbackCapture) returns (sent: seq<seq<Sample>>, partial: seq<Sample>, why: Stop)
    requires WholeFrames(capture.tape)
    modifies capture
    ensures forall k | 0 <= k < |sent| :: |sent[k]| == 480
    ensures !why.Closed? ==> |partial| < CHUNK && Flatten(sent) + partial == Stream(old(capture.tape))
    ensures !why.Closed? ==> sent == Chunks(Stream(old(capture.tape)))
    ensures why.Closed? ==> |partial| == CHUNK && sent + [partial] <= Chunks(Stream(old(capture.tape)))
  {
    hide Stream, Flatten, Chunks;
    NoneSent();
    sent := [];
    ghost var all := Stream(capture.tape);
    while true
      invariant WholeFrames(capture.tape) && WholeChunks(sent)
      invariant all == Flatten(sent) + Stream(capture.tape)
      decreases |Stream(capture.tape)|
    {
      var buf := new Sample[CHUNK](_ => 0);
      var filled := 0;
      ghost var ahead := Stream(capture.tape);
      while filled < PERIOD_FRAMES
        invariant filled <= PERIOD_FRAMES && WholeFrames(capture.tape)
        invariant ahead == buf[..filled * CHANNELS] + Stream(capture.tape)
        invariant |Stream(capture.tape)| <= |ahead|
      {
        var r := Append(capture, buf, filled);
        if r.Failure? || r.value == 0 {
          partial := buf[..filled * CHANNELS];
          assert all == Flatten(sent) + partial;
          Finish(sent, partial, all);
          return sent, partial, if r.Failure? then ReadFailed(r.error) else NoFrames;
        }
        filled := filled + r.value;
      }
      var chunk := buf[..];
      assert chunk == buf[..filled * CHANNELS];
      FlattenSnoc(sent, chunk);
      var ok := *;
      if !ok {
        assert all == Flatten(sent + [chunk]) + Stream(capture.tape);
        ChunksUnique(sent + [chunk], Stream(capture.tape));
        return sent, chunk, Closed;
      }
      sent := sent + [chunk];
    }
  }

  lemma EndOfStream(tape: seq<Reply>)
    requires tape == [] || tape[0] != Overrun(true)
    requires tape != [] && tape[0].Burst? ==> tape[0].samples == []
    ensures Stream(tape) == []
  {
  }

  lemma Finish(sent: seq<seq<Sample>>, partial: seq<Sample>, all: seq<Sample>)
    requires WholeChunks(sent) && |partial| < CHUNK && all == Flatten(sent) + partial
    ensures sent == Chunks(all)
  {
    ChunksUnique(sent, partial);
    assert sent + [] == sent;
  }
}
