/** Annex-B and AVCC byte handling: `rgsp-cedar/src/bitstream.rs`.

    Section B.1 of ITU-T H.264 gives the start-code byte stream, section 5.2.4.1
    of ISO/IEC 14496-15:2010 the avcC record. */
module Bitstream {
  import opened Common

  type Nal = seq<Byte>

  const START: seq<Byte> := [0, 0, 0, 1]

  // ---------------------------------------------------------------- AVCC

  /** `d` from `off` on, read as NALs behind 4-byte lengths; None when a length is 0
      or overruns. A tail too short for a length is ignored, as the loop in the
      source does. */
  function ParseFrom(d: seq<Byte>, off: nat): Option<seq<Nal>>
    requires off <= |d|
    decreases |d| - off
  {
    if off + 4 > |d| then Some([])
    else
      var len := U32Be(d, off);
      if len == 0 || off + 4 + len > |d| then None
      else Behind([d[off + 4..off + 4 + len]], ParseFrom(d, off + 4 + len))
  }

  function ParseAvcc(d: seq<Byte>): Option<seq<Nal>> {
    ParseFrom(d, 0)
  }

  function Behind(front: seq<Nal>, rest: Option<seq<Nal>>): Option<seq<Nal>> {
    if rest.None? then None else Some(front + rest.value)
  }

  function AnnexB(nals: seq<Nal>): seq<Byte> {
    if nals == [] then [] else START + nals[0] + AnnexB(nals[1..])
  }

  function EncodeAvcc(nals: seq<Nal>): seq<Byte>
    requires Encodable(nals)
  {
    if nals == [] then [] else PutU32Be(|nals[0]|) + nals[0] + EncodeAvcc(nals[1..])
  }

  predicate Encodable(nals: seq<Nal>) {
    forall k | 0 <= k < |nals| :: 0 < |nals[k]| < U32_LIMIT
  }

  predicate OpensWithStart(d: seq<Byte>) {
    |d| >= 4 && d[..4] == START
  }

  /** What the conversion appends. */
  function Converted(d: seq<Byte>): seq<Byte> {
    if OpensWithStart(d) then d
    else
      match ParseAvcc(d)
      case None => []
      case Some(nals) => AnnexB(nals)
  }

  lemma {:induction false} AnnexBConcat(a: seq<Nal>, b: seq<Nal>)
    ensures AnnexB(a + b) == AnnexB(a) + AnnexB(b)
  {
    if a == [] {
      assert a + b == b;
    } else {
      assert (a + b)[1..] == a[1..] + b;
      AnnexBConcat(a[1..], b);
      assert START + a[0] + (AnnexB(a[1..]) + AnnexB(b)) == START + a[0] + AnnexB(a[1..]) + AnnexB(b);
    }
  }

  function Slices(d: seq<Byte>, spans: seq<(nat, nat)>): (nals: seq<Nal>)
    requires forall k | 0 <= k < |spans| :: spans[k].0 + spans[k].1 <= |d|
  {
    seq(|spans|, k requires 0 <= k < |spans| => d[spans[k].0..spans[k].0 + spans[k].1])
  }

  lemma BehindNothing(rest: Option<seq<Nal>>)
    ensures Behind([], rest) == rest
  {
    if rest.Some? {
      assert [] + rest.value == rest.value;
    }
  }

  lemma BehindAll(front: seq<Nal>)
    ensures Behind(front, Some([])) == Some(front)
  {
    assert front + [] == front;
  }

  lemma BehindConcat(front: seq<Nal>, nal: Nal, rest: Option<seq<Nal>>)
    ensures Behind(front, Behind([nal], rest)) == Behind(front + [nal], rest)
  {
    if rest.Some? {
      assert front + ([nal] + rest.value) == (front + [nal]) + rest.value;
    }
  }

  lemma AnnexBSnoc(nals: seq<Nal>, nal: Nal)
    ensures AnnexB(nals + [nal]) == AnnexB(nals) + START + nal
  {
    AnnexBConcat(nals, [nal]);
    assert AnnexB([nal]) == START + nal;
  }

  lemma EmitNal(out: seq<Byte>, nals: seq<Nal>, nal: Nal)
    ensures out + AnnexB(nals + [nal]) == out + AnnexB(nals) + START + nal
  {
    AnnexBSnoc(nals, nal);
  }

  /** One round of the parsing loop: the NAL at `off` joins those found so far. */
  lemma ParseStep(d: seq<Byte>, spans: seq<(nat, nat)>, off: nat, len: nat)
    requires forall k | 0 <= k < |spans| :: spans[k].0 + spans[k].1 <= |d|
    requires 0 < len && off + 4 + len <= |d| && U32Be(d, off) == len
    ensures var more := spans + [(off + 4, len)];
            && Behind(Slices(d, spans), ParseFrom(d, off)) == Behind(Slices(d, more), ParseFrom(d, off + 4 + len))
            && |AnnexB(Slices(d, more))| == |AnnexB(Slices(d, spans))| + 4 + len
  {
    var before := Slices(d, spans);
    var nal := d[off + 4..off + 4 + len];
    assert Slices(d, spans + [(off + 4, len)]) == before + [nal];
    BehindConcat(before, nal, ParseFrom(d, off + 4 + len));
    AnnexBSnoc(before, nal);
  }

  /** Parse fully before appending anything: where each NAL lies, or None when `d` is
      not AVCC. */
  method ScanLengths(d: seq<Byte>) returns (found: Option<seq<(nat, nat)>>, written: nat)
    ensures match found
            case None => ParseAvcc(d) == None && written == 0
            case Some(spans) =>
              && (forall k | 0 <= k < |spans| :: spans[k].0 + spans[k].1 <= |d|)
              && ParseAvcc(d) == Some(Slices(d, spans))
              && written == |AnnexB(Slices(d, spans))|
  {
    written := 0;
    var off := 0;
    var spans: seq<(nat, nat)> := [];
    assert Slices(d, spans) == [];
    BehindNothing(ParseAvcc(d));
    while off + 4 <= |d|
      invariant off <= |d|
      invariant forall k | 0 <= k < |spans| :: spans[k].0 + spans[k].1 <= |d|
      invariant ParseAvcc(d) == Behind(Slices(d, spans), ParseFrom(d, off))
      invariant written == |AnnexB(Slices(d, spans))|
    {
      var len := U32Be(d, off);
      if len == 0 || off + 4 + len > |d| {
        return None, 0;
      }
      ParseStep(d, spans, off, len);
      spans := spans + [(off + 4, len)];
      written := written + (4 + len);
      off := off + (4 + len);
    }
    BehindAll(Slices(d, spans));
    return Some(spans), written;
  }

  method AppendAvccAsAnnexB(out: seq<Byte>, d: seq<Byte>) returns (appended: seq<Byte>, written: nat)
    ensures appended == out + Converted(d)
    ensures written == |Converted(d)|
  {
    if |d| >= 4 && d[..4] == START {
      return out + d, |d|;
    }
    var found;
    found, written := ScanLengths(d);
    appended := out;
    if found.None? {
      return;
    }
    var spans := found.value;
    ghost var nals := Slices(d, spans);
    for k := 0 to |spans|
      invariant appended == out + AnnexB(nals[..k])
    {
      var (start, len) := spans[k];
      appended := appended + START;
      appended := appended + d[start..start + len];
      EmitNal(out, nals[..k], nals[k]);
      assert nals[..k] + [nals[k]] == nals[..k + 1];
    }
    assert nals[..|spans|] == nals;
  }

  /** Parsing succeeds on exactly the framed inputs, and with exactly those NALs. */
  predicate Framed(d: seq<Byte>, nals: seq<Nal>) {
    Encodable(nals) && EncodeAvcc(nals) <= d && |d| - |EncodeAvcc(nals)| < 4
  }

  lemma {:induction false} ParseFromExact(d: seq<Byte>, off: nat, nals: seq<Nal>)
    requires off <= |d|
    ensures ParseFrom(d, off) == Some(nals) <==> Framed(d[off..], nals)
    decreases |d| - off
  {
    hide EncodeAvcc, Framed;
    var tail := d[off..];
    if |tail| < 4 {
      FramedShort(tail, nals);
    } else {
      var len := U32Be(d, off);
      assert U32Be(tail, 0) == len;
      FramedExactly(tail, nals);
      if len != 0 && 4 + len <= |tail| {
        var next := off + 4 + len;
        assert tail[4 + len..] == d[next..] && tail[4..4 + len] == d[off + 4..next];
        if nals != [] {
          ParseFromExact(d, next, nals[1..]);
          BehindOne(d[off + 4..next], ParseFrom(d, next), nals);
        }
      }
    }
  }

  lemma BehindOne(nal: Nal, rest: Option<seq<Nal>>, nals: seq<Nal>)
    requires nals != []
    ensures Behind([nal], rest) == Some(nals) <==> nals[0] == nal && rest == Some(nals[1..])
  {
    if rest.Some? {
      assert ([nal] + rest.value)[1..] == rest.value;
      assert nals == [nals[0]] + nals[1..];
    }
  }

  lemma FramedShort(d: seq<Byte>, nals: seq<Nal>)
    requires |d| < 4
    ensures Framed(d, nals) <==> nals == []
  {
    FramedNothing(d);
    if Encodable(nals) && nals != [] {
      assert |EncodeAvcc(nals)| >= 4;
    }
  }

  lemma FramedExactly(d: seq<Byte>, nals: seq<Nal>)
    requires |d| >= 4
    ensures var len := U32Be(d, 0);
            Framed(d, nals)
            <==> nals != [] && 0 < len && 4 + len <= |d| && nals[0] == d[4..4 + len] && Framed(d[4 + len..], nals[1..])
  {
    hide EncodeAvcc;
    if Framed(d, nals) {
      FramedHead(d, nals);
    }
    if nals != [] && 0 < U32Be(d, 0) == |nals[0]| && 4 + |nals[0]| <= |d|
       && nals[0] == d[4..4 + |nals[0]|] && Framed(d[4 + |nals[0]|..], nals[1..]) {
      FramedCons(d, nals);
    }
  }

  lemma FramedNothing(d: seq<Byte>)
    ensures Framed(d, []) <==> |d| < 4
  {
    assert EncodeAvcc([]) == [];
  }

  lemma ParseExact(d: seq<Byte>, nals: seq<Nal>)
    ensures ParseAvcc(d) == Some(nals) <==> Framed(d, nals)
  {
    ParseFromExact(d, 0, nals);
    assert d[0..] == d;
  }

  lemma FramedCons(d: seq<Byte>, nals: seq<Nal>)
    requires |d| >= 4 && nals != [] && 0 < U32Be(d, 0) == |nals[0]| && 4 + |nals[0]| <= |d|
    requires nals[0] == d[4..4 + |nals[0]|] && Framed(d[4 + |nals[0]|..], nals[1..])
    ensures Framed(d, nals)
  {
    PutOfU32(d);
    assert forall k | 1 <= k < |nals| :: nals[k] == nals[1..][k - 1];
    assert d == d[..4] + nals[0] + d[4 + |nals[0]|..];
  }

  lemma PutOfU32(d: seq<Byte>)
    requires |d| >= 4
    ensures PutU32Be(U32Be(d, 0)) == d[..4]
  {
    var e := PutU32Be(U32Be(d, 0));
    assert U32Be(e, 0) == U32Be(d, 0);
    assert e[0] == d[0];
    assert e[1] == d[1];
    assert e[2] == d[2];
  }

  lemma FramedHead(d: seq<Byte>, nals: seq<Nal>)
    requires Framed(d, nals) && |d| >= 4
    ensures nals != [] && U32Be(d, 0) == |nals[0]| && 4 + |nals[0]| <= |d|
    ensures d[4..4 + |nals[0]|] == nals[0]
    ensures Framed(d[4 + |nals[0]|..], nals[1..])
  {
    var n := nals[0];
    var enc := EncodeAvcc(nals);
    assert enc == PutU32Be(|n|) + n + EncodeAvcc(nals[1..]);
    assert d[..|enc|] == enc;
    assert d[..4] == enc[..4] == PutU32Be(|n|);
    assert d[4..4 + |n|] == enc[4..4 + |n|] == n;
    assert enc[4 + |n|..] == EncodeAvcc(nals[1..]);
    assert d[4 + |n|..|enc|] == enc[4 + |n|..];
  }

  /** The round trip, and where it stops: a first NAL of one byte makes the input
      look like a start-code stream, and it is passed through as it is. */
  lemma ConversionRoundTrip(d: seq<Byte>, nals: seq<Nal>)
    requires Framed(d, nals)
    ensures Converted(d) == AnnexB(nals)
        <==> nals == [] || |nals[0]| >= 2
             || (|d| == |EncodeAvcc(nals)| && forall k | 0 <= k < |nals| :: |nals[k]| == 1)
  {
    ParseExact(d, nals);
    if nals != [] {
      FramedHead(d, nals);
      PrefixOfFirst(d);
      EncodingIsAnnexB(nals);
      AnnexBLength(nals);
      var enc := EncodeAvcc(nals);
      assert d == enc + d[|enc|..];
    }
  }

  /** A length prefix of 1 is a start code, and no other prefix is. */
  lemma PrefixOfFirst(d: seq<Byte>)
    requires |d| >= 4
    ensures OpensWithStart(d) <==> U32Be(d, 0) == 1
  {
    assert OpensWithStart(d) <==> d[0] == 0 && d[1] == 0 && d[2] == 0 && d[3] == 1 by {
      assert d[..4] == [d[0], d[1], d[2], d[3]];
    }
  }

  lemma {:induction false} AnnexBLength(nals: seq<Nal>)
    requires Encodable(nals)
    ensures |AnnexB(nals)| == |EncodeAvcc(nals)|
  {
    if nals != [] {
      AnnexBLength(nals[1..]);
    }
  }

  lemma {:induction false} EncodingIsAnnexB(nals: seq<Nal>)
    requires Encodable(nals)
    ensures EncodeAvcc(nals) == AnnexB(nals) <==> forall k | 0 <= k < |nals| :: |nals[k]| == 1
  {
    if nals != [] {
      EncodingIsAnnexB(nals[1..]);
      var a, e := AnnexB(nals), EncodeAvcc(nals);
      var cut := 4 + |nals[0]|;
      assert a[..4] == START && e[..4] == PutU32Be(|nals[0]|);
      assert a[cut..] == AnnexB(nals[1..]) && e[cut..] == EncodeAvcc(nals[1..]);
      assert PutU32Be(1) == START && U32Be(START, 0) == 1;
      if forall k | 0 <= k < |nals| :: |nals[k]| == 1 {
        assert forall k | 0 <= k < |nals[1..]| :: |nals[1..][k]| == 1;
      }
      if a == e {
        assert forall k | 1 <= k < |nals| :: nals[k] == nals[1..][k - 1];
      }
    }
  }

  // ---------------------------------------------------------------- the walker

  /** A NAL header sits right behind 00 00 01. */
  predicate HeaderAt(d: seq<Byte>, p: int) {
    3 <= p < |d| && d[p - 3] == 0 && d[p - 2] == 0 && d[p - 1] == 1
  }

  /** The header positions in lo..hi, ascending. */
  function Headers(d: seq<Byte>, lo: int, hi: int): (r: seq<int>)
    requires hi <= |d|
    ensures forall k | 0 <= k < |r| :: lo <= r[k] < hi && HeaderAt(d, r[k])
    decreases hi - lo
  {
    if lo >= hi then []
    else if HeaderAt(d, lo) then [lo] + Headers(d, lo + 1, hi)
    else Headers(d, lo + 1, hi)
  }

  function NalType(b: Byte): Byte {
    b % 32
  }

  /** The nal_unit_type values behind the start codes of `d`, in order. */
  function NalTypes(d: seq<Byte>): seq<Byte> {
    TypesAt(d, Headers(d, 0, |d|))
  }

  function TypesAt(d: seq<Byte>, at: seq<int>): (r: seq<Byte>)
    requires forall k | 0 <= k < |at| :: 0 <= at[k] < |d|
  {
    seq(|at|, k requires 0 <= k < |at| => NalType(d[at[k]]))
  }

  lemma {:induction false} InHeaders(d: seq<Byte>, lo: int, hi: int, p: int)
    requires hi <= |d|
    ensures p in Headers(d, lo, hi) <==> lo <= p < hi && HeaderAt(d, p)
    decreases hi - lo
  {
    hide HeaderAt;
    if lo < hi {
      InHeaders(d, lo + 1, hi, p);
    }
  }

  predicate Ascending(r: seq<int>) {
    forall i, j | 0 <= i < j < |r| :: r[i] < r[j]
  }

  lemma {:induction false} HeadersAscend(d: seq<Byte>, lo: int, hi: int)
    requires hi <= |d|
    ensures Ascending(Headers(d, lo, hi))
    decreases hi - lo
  {
    hide HeaderAt;
    if lo < hi {
      HeadersAscend(d, lo + 1, hi);
      HeadersStep(d, lo, hi);
      hide Headers;
    }
  }

  lemma HeadersStep(d: seq<Byte>, lo: int, hi: int)
    requires lo < hi <= |d|
    ensures Headers(d, lo, hi) == (if HeaderAt(d, lo) then [lo] else []) + Headers(d, lo + 1, hi)
  {
    assert [] + Headers(d, lo + 1, hi) == Headers(d, lo + 1, hi);
  }

  /** The walk lists each header position once, in ascending order, and no other. */
  lemma HeadersComplete(d: seq<Byte>, lo: int, hi: int)
    requires hi <= |d|
    ensures Ascending(Headers(d, lo, hi))
    ensures forall p :: p in Headers(d, lo, hi) <==> lo <= p < hi && HeaderAt(d, p)
  {
    hide Headers, HeaderAt, Ascending;
    HeadersAscend(d, lo, hi);
    forall p ensures p in Headers(d, lo, hi) <==> lo <= p < hi && HeaderAt(d, p) {
      InHeaders(d, lo, hi, p);
    }
  }

  lemma {:induction false} HeadersSplit(d: seq<Byte>, lo: int, mid: int, hi: int)
    requires lo <= mid <= hi <= |d|
    ensures Headers(d, lo, hi) == Headers(d, lo, mid) + Headers(d, mid, hi)
    decreases mid - lo
  {
    hide HeaderAt;
    if lo < mid {
      HeadersSplit(d, lo + 1, mid, hi);
      HeadersStep(d, lo, hi);
      HeadersStep(d, lo, mid);
      hide Headers;
    }
  }

  lemma {:induction false} NoHeaders(d: seq<Byte>, lo: int, hi: int)
    requires hi <= |d|
    requires forall p | lo <= p < hi :: !HeaderAt(d, p)
    ensures Headers(d, lo, hi) == []
    decreases hi - lo
  {
    if lo < hi {
      NoHeaders(d, lo + 1, hi);
    }
  }

  lemma OneStep(d: seq<Byte>, at: int)
    requires HeaderAt(d, at)
    ensures Headers(d, at, at + 1) == [at]
  {
  }

  lemma SingleHeader(d: seq<Byte>, lo: int, hi: int, at: int)
    requires lo <= at < hi <= |d| && HeaderAt(d, at)
    requires forall p | lo <= p < hi && p != at :: !HeaderAt(d, p)
    ensures Headers(d, lo, hi) == [at]
  {
    hide Headers;
    HeadersSplit(d, lo, at, hi);
    NoHeaders(d, lo, at);
    HeadersSplit(d, at, at + 1, hi);
    NoHeaders(d, at + 1, hi);
    OneStep(d, at);
  }

  /** One step of the walker's closure: the next header from cursor `i`, and the
      new cursor. */
  method NextNal(d: seq<Byte>, i: nat) returns (hit: Option<nat>, next: nat)
    requires i <= |d|
    ensures match hit
            case None => Headers(d, i + 3, |d|) == []
            case Some(at) => i < next == at < |d|
                             && Headers(d, i + 3, |d|) == [at] + Headers(d, at + 3, |d|)
  {
    next := i;
    while next + 4 <= |d|
      invariant i <= next <= |d|
      invariant Headers(d, i + 3, |d|) == Headers(d, next + 3, |d|)
    {
      var sc;
      if d[next..next + 4] == START {
        sc := 4;
      } else if d[next..next + 3] == [0, 0, 1] {
        sc := 3;
      } else {
        next := next + 1;
        continue;
      }
      if next + sc >= |d| {
        next := next + 1;
        continue;
      }
      var at := next + sc;
      assert d[at - 1] == d[next..at][sc - 1] && d[at - 2] == d[next..at][sc - 2] && d[at - 3] == d[next..at][sc - 3];
      assert HeaderAt(d, at);
      if sc == 4 {
        HeadersSplit(d, next + 3, at, |d|);
      }
      HeadersSkip(d, at);
      next := next + sc;
      return Some(at), next;
    }
    return None, next;
  }

  /** No header follows within two bytes of another: its third byte is a 1. */
  lemma HeadersSkip(d: seq<Byte>, at: int)
    requires HeaderAt(d, at)
    ensures Headers(d, at, |d|) == [at] + Headers(d, at + 3, |d|)
  {
    if at + 3 <= |d| {
      HeadersSplit(d, at + 1, at + 3, |d|);
      NoHeaders(d, at + 1, at + 3);
    } else {
      NoHeaders(d, at + 1, |d|);
    }
  }

  lemma HeadersStart(d: seq<Byte>)
    ensures Headers(d, 0, |d|) == Headers(d, 3, |d|)
  {
    if |d| < 3 {
      NoHeaders(d, 0, |d|);
    } else {
      HeadersSplit(d, 0, 3, |d|);
      NoHeaders(d, 0, 3);
    }
  }

  /** The first element of `ts` that lies in `kinds`. */
  function FirstOf(ts: seq<Byte>, kinds: set<Byte>): Option<Byte> {
    if ts == [] then None
    else if ts[0] in kinds then Some(ts[0])
    else FirstOf(ts[1..], kinds)
  }

  lemma {:induction false} FirstOfConcat(a: seq<Byte>, b: seq<Byte>, kinds: set<Byte>)
    ensures FirstOf(a + b, kinds)
         == if FirstOf(a, kinds).Some? then FirstOf(a, kinds) else FirstOf(b, kinds)
  {
    if a == [] {
      assert a + b == b;
    } else {
      assert (a + b)[1..] == a[1..] + b;
      FirstOfConcat(a[1..], b, kinds);
    }
  }

  const SLICES: set<Byte> := {1, 5}
  const DECIDERS: set<Byte> := {1, 5, 7, 8}

  predicate IsIdr(d: seq<Byte>) {
    FirstOf(NalTypes(d), SLICES) == Some(5)
  }

  predicate OpensWithSets(d: seq<Byte>) {
    FirstOf(NalTypes(d), DECIDERS) in {Some(7), Some(8)}
  }

  lemma TypesStep(d: seq<Byte>, at: int)
    requires HeaderAt(d, at)
    ensures TypesAt(d, [at] + Headers(d, at + 3, |d|))
         == [NalType(d[at])] + TypesAt(d, Headers(d, at + 3, |d|))
  {
  }

  method FirstSliceIsIdr(d: seq<Byte>) returns (idr: bool)
    ensures idr == IsIdr(d)
  {
    HeadersStart(d);
    var i := 0;
    while true
      invariant i <= |d|
      invariant FirstOf(NalTypes(d), SLICES) == FirstOf(TypesAt(d, Headers(d, i + 3, |d|)), SLICES)
      decreases |d| - i
    {
      var hit, next := NextNal(d, i);
      if hit.None? {
        return false;
      }
      var nalType := NalType(d[hit.value]);
      TypesStep(d, hit.value);
      if nalType == 1 || nalType == 5 {
        return nalType == 5;
      }
      i := next;
    }
  }

  method StartsWithParameterSets(d: seq<Byte>) returns (starts: bool)
    ensures starts == OpensWithSets(d)
  {
    HeadersStart(d);
    var i := 0;
    while true
      invariant i <= |d|
      invariant FirstOf(NalTypes(d), DECIDERS) == FirstOf(TypesAt(d, Headers(d, i + 3, |d|)), DECIDERS)
      decreases |d| - i
    {
      var hit, next := NextNal(d, i);
      if hit.None? {
        return false;
      }
      var nalType := NalType(d[hit.value]);
      TypesStep(d, hit.value);
      if nalType == 7 || nalType == 8 {
        return true;
      }
      if nalType == 1 || nalType == 5 {
        return false;
      }
      i := next;
    }
  }

  // ---------------------------------------------------------------- the walker over a concatenation

  function Shift(at: seq<int>, delta: int): (r: seq<int>) {
    seq(|at|, k requires 0 <= k < |at| => at[k] + delta)
  }

  lemma {:induction false} HeadersShift(d: seq<Byte>, e: seq<Byte>, lo: int, hi: int, delta: int)
    requires hi <= |e| && hi + delta <= |d|
    requires forall p | lo <= p < hi :: HeaderAt(d, p + delta) == HeaderAt(e, p)
    ensures Headers(d, lo + delta, hi + delta) == Shift(Headers(e, lo, hi), delta)
    decreases hi - lo
  {
    if lo < hi {
      HeadersShift(d, e, lo + 1, hi, delta);
    }
  }

  /** The at most three positions whose start code spans the seam of a + b. */
  function SeamEnd(a: seq<Byte>, b: seq<Byte>): (m: nat)
    ensures |a| <= m <= |a + b|
  {
    if |b| < 3 then |a + b| else |a| + 3
  }

  function Seam(a: seq<Byte>, b: seq<Byte>): seq<int> {
    Headers(a + b, |a|, SeamEnd(a, b))
  }

  lemma HeadersOfFront(a: seq<Byte>, b: seq<Byte>)
    ensures Headers(a + b, 0, |a|) == Headers(a, 0, |a|)
  {
    var d := a + b;
    forall p | 0 <= p < |a| ensures HeaderAt(d, p + 0) == HeaderAt(a, p) {
    }
    HeadersShift(d, a, 0, |a|, 0);
    var h := Headers(a, 0, |a|);
    assert Shift(h, 0) == h;
  }

  lemma HeadersOfBack(a: seq<Byte>, b: seq<Byte>)
    ensures Headers(a + b, SeamEnd(a, b), |a + b|) == Shift(Headers(b, 0, |b|), |a|)
  {
    hide Headers;
    var m := SeamEnd(a, b) - |a|;
    forall p | m <= p < |b| ensures HeaderAt(a + b, p + |a|) == HeaderAt(b, p) {
      HeaderBehind(a, b, p);
    }
    HeadersShift(a + b, b, m, |b|, |a|);
    assert m + |a| == SeamEnd(a, b) && |b| + |a| == |a + b|;
    HeadersSplit(b, 0, m, |b|);
    NoHeaders(b, 0, m);
  }

  lemma HeaderBehind(a: seq<Byte>, b: seq<Byte>, p: int)
    requires 3 <= p < |b|
    ensures HeaderAt(a + b, p + |a|) == HeaderAt(b, p)
  {
    var d, at := a + b, p + |a|;
    assert d[at - 3] == b[p - 3] && d[at - 2] == b[p - 2] && d[at - 1] == b[p - 1];
  }

  lemma HeadersConcat(a: seq<Byte>, b: seq<Byte>)
    ensures Headers(a + b, 0, |a + b|)
         == Headers(a, 0, |a|) + Seam(a, b) + Shift(Headers(b, 0, |b|), |a|)
  {
    HeadersOfFront(a, b);
    HeadersOfBack(a, b);
    HeadersSplit(a + b, 0, |a|, |a + b|);
    HeadersSplit(a + b, |a|, SeamEnd(a, b), |a + b|);
  }

  /** The walker over a concatenation: the types of the parts, with those of the seam
      between them. */
  lemma TypesConcat(a: seq<Byte>, b: seq<Byte>)
    ensures NalTypes(a + b) == NalTypes(a) + TypesAt(a + b, Seam(a, b)) + NalTypes(b)
  {
    HeadersConcat(a, b);
    var d := a + b;
    var ha, hs, hb := Headers(a, 0, |a|), Seam(a, b), Headers(b, 0, |b|);
    assert TypesAt(d, ha) == TypesAt(a, ha);
    assert TypesAt(d, Shift(hb, |a|)) == TypesAt(b, hb);
    assert TypesAt(d, ha + hs + Shift(hb, |a|)) == TypesAt(d, ha) + TypesAt(d, hs) + TypesAt(d, Shift(hb, |a|));
  }

  /** Nothing at the end of `a` can start a start code that `b` completes. */
  predicate CleanTail(a: seq<Byte>) {
    a == [] || (a[|a| - 1] != 0 && !EndsWithStart(a))
  }

  predicate OpensWithZeros(b: seq<Byte>) {
    |b| >= 2 && b[0] == 0 && b[1] == 0
  }

  lemma SeamIsHarmless(a: seq<Byte>, b: seq<Byte>, kinds: set<Byte>)
    requires CleanTail(a) || OpensWithZeros(b)
    requires 0 !in kinds
    ensures FirstOf(TypesAt(a + b, Seam(a, b)), kinds) == None
  {
    var d := a + b;
    if CleanTail(a) {
      forall p | |a| <= p < SeamEnd(a, b) ensures !HeaderAt(d, p) {
        if a != [] {
          assert d[|a| - 1] == a[|a| - 1];
          if p == |a| && |a| >= 3 {
            assert a[|a| - 3..] == [a[|a| - 3], a[|a| - 2], a[|a| - 1]];
          }
        }
      }
      NoHeaders(d, |a|, SeamEnd(a, b));
    } else {
      assert d[|a|] == 0 && d[|a| + 1] == 0;
      forall p | |a| + 1 <= p < SeamEnd(a, b) ensures !HeaderAt(d, p) {
      }
      HeadersSplit(d, |a|, |a| + 1, SeamEnd(a, b));
      NoHeaders(d, |a| + 1, SeamEnd(a, b));
      var hs := Seam(a, b);
      assert hs == if HeaderAt(d, |a|) then [|a|] else [];
      if hs != [] {
        assert TypesAt(d, hs) == [0];
      }
    }
  }

  /** What the keyframe prepend does to the IDR verdict, for any sets without a
      slice and any unit: only a slice header spanning the seam can change it. */
  lemma PrependVerdict(sets: seq<Byte>, unit: seq<Byte>)
    requires FirstOf(NalTypes(sets), SLICES) == None
    ensures IsIdr(sets + unit) == (match FirstOf(TypesAt(sets + unit, Seam(sets, unit)), SLICES)
                                   case Some(t) => t == 5
                                   case None => IsIdr(unit))
  {
    TypesConcat(sets, unit);
    hide Headers;
    var seam := TypesAt(sets + unit, Seam(sets, unit));
    FirstOfConcat(NalTypes(sets) + seam, NalTypes(unit), SLICES);
    FirstOfConcat(NalTypes(sets), seam, SLICES);
  }

  lemma PrependKeepsVerdict(sets: seq<Byte>, unit: seq<Byte>)
    requires FirstOf(NalTypes(sets), SLICES) == None
    requires CleanTail(sets) || OpensWithZeros(unit)
    ensures IsIdr(sets + unit) == IsIdr(unit)
  {
    PrependVerdict(sets, unit);
    SeamIsHarmless(sets, unit, SLICES);
  }

  /** Sets whose last bytes begin a start code, in front of a unit that completes it: the
      slice header at the seam takes the verdict. Neither unit parses as AVCC. */
  lemma Flipper(sets: seq<Byte>) returns (unit: seq<Byte>)
    requires FirstOf(NalTypes(sets), SLICES) == None && !CleanTail(sets)
    ensures IsIdr(unit) && !IsIdr(sets + unit) && NalTypes(unit) == [5]
    ensures unit in {[0, 1, 0x41, 0, 0, 1, 0x65], [0x41, 0, 0, 1, 0x65]}
  {
    if sets[|sets| - 1] == 0 {
      unit := [0, 1, 0x41, 0, 0, 1, 0x65];
      TypesOfOne(unit, 6);
      assert (sets + unit)[|sets| - 1] == sets[|sets| - 1];
      FlippedAt(sets, unit, |sets| + 2);
    } else {
      unit := [0x41, 0, 0, 1, 0x65];
      TypesOfOne(unit, 4);
      var d, n := sets + unit, |sets|;
      assert sets[n - 3..] == [sets[n - 3], sets[n - 2], sets[n - 1]];
      assert d[n - 3] == sets[n - 3] && d[n - 2] == sets[n - 2] && d[n - 1] == sets[n - 1];
      FlippedAt(sets, unit, n);
    }
  }

  /** Which stored sets are safe in front of every IDR unit: those whose last bytes
      cannot begin a start code. */
  lemma PrependSafeExactly(sets: seq<Byte>)
    requires FirstOf(NalTypes(sets), SLICES) == None
    ensures (forall unit: seq<Byte> | IsIdr(unit) :: IsIdr(sets + unit)) <==> CleanTail(sets)
  {
    if CleanTail(sets) {
      forall unit: seq<Byte> | IsIdr(unit) ensures IsIdr(sets + unit) {
        PrependKeepsVerdict(sets, unit);
      }
    } else {
      var unit := Flipper(sets);
    }
  }

  /** Whatever conversion emits begins with zeros. */
  lemma ConvertedOpens(d: seq<Byte>)
    ensures Converted(d) == [] || OpensWithZeros(Converted(d))
  {
    if OpensWithStart(d) {
      assert d[..4][0] == d[0] && d[..4][1] == d[1];
    }
  }

  /** Framed sets have a clean tail exactly when the last one does. */
  lemma FramedTail(nals: seq<Nal>)
    requires nals != [] && nals[|nals| - 1] != []
    ensures CleanTail(AnnexB(nals)) <==> CleanTail(nals[|nals| - 1])
  {
    hide AnnexB, CleanTail;
    var front, n := nals[..|nals| - 1], nals[|nals| - 1];
    assert nals == front + [n];
    AnnexBSnoc(front, n);
    TailBehindStart(AnnexB(front), n);
  }

  lemma TailBehindStart(front: seq<Byte>, n: seq<Byte>)
    requires n != []
    ensures CleanTail(front + START + n) <==> CleanTail(n)
  {
    var d := front + START + n;
    LastThree(d);
    assert d[|d| - 1] == n[|n| - 1];
    assert |n| <= 2 ==> d[|d| - 1 - |n|] == 1;
    if |n| >= 3 {
      LastThree(n);
      assert d[|d| - 3] == n[|n| - 3] && d[|d| - 2] == n[|n| - 2];
    }
  }

  lemma LastThree(d: seq<Byte>)
    requires |d| >= 3
    ensures EndsWithStart(d) <==> d[|d| - 3] == 0 && d[|d| - 2] == 0 && d[|d| - 1] == 1
  {
    assert d[|d| - 3..] == [d[|d| - 3], d[|d| - 2], d[|d| - 1]];
  }

  lemma FlippedAt(sets: seq<Byte>, unit: seq<Byte>, at: int)
    requires FirstOf(NalTypes(sets), SLICES) == None
    requires NalTypes(unit) == [5]
    requires |sets| <= at < SeamEnd(sets, unit) && HeaderAt(sets + unit, at) && (sets + unit)[at] == 0x41
    requires forall p | |sets| <= p < SeamEnd(sets, unit) && p != at :: !HeaderAt(sets + unit, p)
    ensures IsIdr(unit) && !IsIdr(sets + unit)
  {
    SingleHeader(sets + unit, |sets|, SeamEnd(sets, unit), at);
    assert TypesAt(sets + unit, [at]) == [1];
    assert FirstOf([1], SLICES) == Some(1) && FirstOf([5], SLICES) == Some(5);
    PrependVerdict(sets, unit);
  }

  lemma TypesOfOne(d: seq<Byte>, at: int)
    requires HeaderAt(d, at)
    requires forall p | 0 <= p < |d| && p != at :: !HeaderAt(d, p)
    ensures NalTypes(d) == [NalType(d[at])]
  {
    SingleHeader(d, 0, |d|, at);
  }

  lemma PrependOpensWithSets(sets: seq<Byte>, unit: seq<Byte>)
    requires OpensWithSets(sets)
    ensures OpensWithSets(sets + unit)
  {
    TypesConcat(sets, unit);
    var seam := TypesAt(sets + unit, Seam(sets, unit));
    FirstOfConcat(NalTypes(sets) + seam, NalTypes(unit), DECIDERS);
    FirstOfConcat(NalTypes(sets), seam, DECIDERS);
  }

  /** What a copy of `sets` begins in front of itself: the types whose start code spans
      the two. */
  function SelfSeam(sets: seq<Byte>): seq<Byte> {
    TypesAt(sets + sets, Seam(sets, sets))
  }

  /** From three bytes on, whatever follows the second copy. */
  lemma SelfSeamThen(sets: seq<Byte>, unit: seq<Byte>)
    requires |sets| >= 3
    ensures TypesAt(sets + (sets + unit), Seam(sets, sets + unit)) == SelfSeam(sets)
  {
    var d, e, hi := sets + (sets + unit), sets + sets, |sets| + 3;
    assert d[..hi] == e[..hi];
    HeadersAgree(d, e, |sets|, hi);
    forall k | 0 <= k < |Seam(sets, sets)|
      ensures d[Seam(sets, sets)[k]] == e[Seam(sets, sets)[k]]
    {
      assert Seam(sets, sets)[k] < hi;
      assert d[..hi][Seam(sets, sets)[k]] == e[..hi][Seam(sets, sets)[k]];
    }
  }

  lemma HeadersAgree(d: seq<Byte>, e: seq<Byte>, lo: int, hi: nat)
    requires hi <= |d| && hi <= |e| && d[..hi] == e[..hi]
    ensures Headers(d, lo, hi) == Headers(e, lo, hi)
  {
    forall p | lo <= p < hi ensures HeaderAt(d, p + 0) == HeaderAt(e, p) {
      assert forall k | 0 <= k < hi :: d[..hi][k] == d[k] && e[..hi][k] == e[k];
    }
    HeadersShift(d, e, lo, hi, 0);
    assert Shift(Headers(e, lo, hi), 0) == Headers(e, lo, hi);
  }

  /** One or two bytes in front of themselves begin nothing, but for a lone zero. */
  lemma ShortSeam(sets: seq<Byte>, unit: seq<Byte>)
    requires |sets| < 3 && sets != [0]
    ensures Seam(sets, sets + unit) == [] || sets == []
  {
    var d := sets + (sets + unit);
    if sets != [] {
      if |sets| == 1 {
        assert d[0] == d[1] == sets[0] && sets == [sets[0]];
      } else {
        assert d[0] == d[2] == sets[0] && d[1] == d[3] == sets[1];
      }
      NoHeaders(d, |sets|, SeamEnd(sets, sets + unit));
    }
  }

  /** Without a slice or a parameter set in front, a bare IDR slice is what a walk finds. */
  lemma BareIdr(sets: seq<Byte>)
    requires FirstOf(NalTypes(sets), SLICES) == None && !OpensWithSets(sets)
    ensures IsIdr(sets + IDR) && !OpensWithSets(sets + IDR)
  {
    TypesOfOne(IDR, 3);
    assert NalTypes(IDR) == [5] && FirstOf([5], DECIDERS) == Some(5) && FirstOf([5], SLICES) == Some(5);
    PrependKeepsVerdict(sets, IDR);
    FirstDecides(NalTypes(sets));
    TypesConcat(sets, IDR);
    SeamIsHarmless(sets, IDR, DECIDERS);
    var seam := TypesAt(sets + IDR, Seam(sets, IDR));
    FirstOfConcat(NalTypes(sets) + seam, NalTypes(IDR), DECIDERS);
    FirstOfConcat(NalTypes(sets), seam, DECIDERS);
  }

  const IDR: seq<Byte> := [0, 0, 1, 0x65]

  /** What comes first of four kinds, if no slice comes at all. */
  lemma {:induction false} FirstDecides(types: seq<Byte>)
    requires FirstOf(types, SLICES) == None
    ensures FirstOf(types, DECIDERS) in {None, Some(7), Some(8)}
  {
    if types != [] {
      FirstDecides(types[1..]);
    }
  }

  // ---------------------------------------------------------------- round trip through the walker

  /** Where the header byte of each NAL lands in AnnexB(nals). */
  function HeaderOffsets(nals: seq<Nal>, base: int): (r: seq<int>)
    ensures |r| == |nals|
  {
    if nals == [] then [] else [base + 4] + HeaderOffsets(nals[1..], base + 4 + |nals[0]|)
  }

  predicate EndsWithStart(n: Nal) {
    |n| >= 3 && n[|n| - 3..] == [0, 0, 1]
  }

  /** No payload holds a start code: none inside, and none at the end that the next
      NAL's own start code would turn into a header. */
  predicate EmulationFree(nals: seq<Nal>) {
    forall k | 0 <= k < |nals| :: Harmless(nals, k)
  }

  lemma {:induction false} OffsetsShift(nals: seq<Nal>, base: int, delta: int)
    ensures HeaderOffsets(nals, base + delta) == Shift(HeaderOffsets(nals, base), delta)
  {
    if nals != [] {
      OffsetsShift(nals[1..], base + 4 + |nals[0]|, delta);
    }
  }

  lemma HeadersOfFramed(n: Nal)
    requires n != []
    ensures Headers(START + n, 0, |START + n|) == [4] + Shift(Headers(n, 0, |n|), 4)
  {
    var a := START + n;
    HeadersConcat(START, n);
    NoHeaders(START, 0, 4);
    SingleHeader(a, 4, SeamEnd(START, n), 4);
  }

  lemma SeamOfRest(n: Nal, rest: seq<Nal>)
    requires n != []
    ensures Seam(START + n, AnnexB(rest)) == if rest != [] && EndsWithStart(n) then [4 + |n|] else []
  {
    if rest != [] {
      var a, b := START + n, AnnexB(rest);
      var d := a + b;
      assert b[0] == 0 && b[1] == 0 && b[2] == 0;
      var at := |a|;
      assert d[at] == 0 && d[at + 1] == 0;
      assert d[at - 3] == a[at - 3] && d[at - 2] == a[at - 2] && d[at - 1] == a[at - 1];
      if |n| >= 3 {
        assert n[|n| - 3..] == [n[|n| - 3], n[|n| - 2], n[|n| - 1]];
        assert a[at - 3] == n[|n| - 3] && a[at - 2] == n[|n| - 2] && a[at - 1] == n[|n| - 1];
      }
      assert HeaderAt(d, at) == EndsWithStart(n);
      if EndsWithStart(n) {
        SingleHeader(d, at, SeamEnd(a, b), at);
      } else {
        NoHeaders(d, at, SeamEnd(a, b));
      }
    }
  }

  /** One NAL in front of a stream: its own header, what its payload emulates, and a
      header at the seam when the payload ends in a start code. */
  lemma HeadersOfCons(n: Nal, rest: seq<Nal>, stream: seq<Byte>)
    requires n != [] && stream == AnnexB([n] + rest)
    ensures Headers(stream, 0, |stream|)
         == [4] + Shift(Headers(n, 0, |n|), 4)
            + (if rest != [] && EndsWithStart(n) then [4 + |n|] else [])
            + Shift(Headers(AnnexB(rest), 0, |AnnexB(rest)|), 4 + |n|)
  {
    assert ([n] + rest)[1..] == rest;
    assert stream == (START + n) + AnnexB(rest);
    HeadersOfFramed(n);
    SeamOfRest(n, rest);
    HeadersConcat(START + n, AnnexB(rest));
  }

  /** The walker finds exactly the headers of the NALs, in order, if and only if the
      payloads are free of start codes. */
  lemma {:induction false} WalkRoundTrip(nals: seq<Nal>)
    requires forall k | 0 <= k < |nals| :: nals[k] != []
    ensures var d := AnnexB(nals);
            && |Headers(d, 0, |d|)| >= |nals|
            && (Headers(d, 0, |d|) == HeaderOffsets(nals, 0) <==> EmulationFree(nals))
            && (|Headers(d, 0, |d|)| == |nals| <==> EmulationFree(nals))
  {
    if nals != [] {
      var n, rest := nals[0], nals[1..];
      WalkRoundTrip(rest);
      assert nals == [n] + rest;
      HeadersOfCons(n, rest, AnnexB(nals));
      OffsetsShift(rest, 0, 4 + |n|);
      EmulationFreeCons(n, rest);
    }
  }

  /** What EmulationFree asks of NAL `k`. */
  predicate Harmless(nals: seq<Nal>, k: nat)
    requires k < |nals|
  {
    Headers(nals[k], 0, |nals[k]|) == [] && (k + 1 < |nals| ==> !EndsWithStart(nals[k]))
  }

  lemma EmulationFreeCons(n: Nal, rest: seq<Nal>)
    ensures EmulationFree([n] + rest) <==> Harmless([n] + rest, 0) && EmulationFree(rest)
  {
    var nals := [n] + rest;
    forall k | 0 <= k < |rest| ensures Harmless(rest, k) == Harmless(nals, k + 1) {
      assert rest[k] == nals[k + 1];
    }
    if EmulationFree(rest) && Harmless(nals, 0) {
      forall k | 0 <= k < |nals| ensures Harmless(nals, k) {
        if k > 0 {
          assert Harmless(rest, k - 1);
        }
      }
    }
  }

  /** NAL k, header byte first, stands at its offset. */
  lemma {:induction false} HeaderBytes(nals: seq<Nal>, front: seq<Byte>, k: nat)
    requires k < |nals| && forall j | 0 <= j < |nals| :: nals[j] != []
    ensures |front| <= HeaderOffsets(nals, |front|)[k]
    ensures HeaderOffsets(nals, |front|)[k] < |front + AnnexB(nals)|
    ensures (front + AnnexB(nals))[HeaderOffsets(nals, |front|)[k]] == nals[k][0]
  {
    var n, rest := nals[0], nals[1..];
    var fed := front + START + n;
    assert front + AnnexB(nals) == fed + AnnexB(rest);
    if k == 0 {
      assert fed[|front| + 4] == n[0];
    } else {
      HeaderBytes(rest, fed, k - 1);
    }
  }

  /** NAL k opens with forbidden_zero_bit and nal_ref_idc, three bits, and a five-bit
      nal_unit_type: section 7.3.1 of ITU-T H.264. */
  predicate HeadedBy(nals: seq<Nal>, refs: seq<nat>, types: seq<nat>) {
    && |refs| == |types| == |nals|
    && forall k | 0 <= k < |nals| :: refs[k] < 8 && types[k] < 32 && nals[k] != [] && nals[k][0] == refs[k] * 32 + types[k]
  }

  /** The slice or parameter set that comes first decides, and it has type t. */
  predicate Decides(types: seq<nat>, kinds: set<nat>, t: nat) {
    exists k :: 0 <= k < |types| && types[k] == t && t in kinds && forall j | 0 <= j < k :: types[j] !in kinds
  }

  /** What the walker reads off framed NALs: their types, and from these the two answers. */
  lemma WalkTypes(nals: seq<Nal>, refs: seq<nat>, types: seq<nat>)
    requires HeadedBy(nals, refs, types) && EmulationFree(nals)
    ensures NalTypes(AnnexB(nals)) == types
    ensures IsIdr(AnnexB(nals)) <==> Decides(types, {1, 5}, 5)
    ensures OpensWithSets(AnnexB(nals)) <==> Decides(types, {1, 5, 7, 8}, 7) || Decides(types, {1, 5, 7, 8}, 8)
  {
    var b := AnnexB(nals);
    WalkRoundTrip(nals);
    assert [] + b == b;
    forall k | 0 <= k < |nals| ensures NalTypes(b)[k] == types[k] {
      HeaderBytes(nals, [], k);
      TypeBits(refs[k], types[k]);
    }
    var found := NalTypes(b);
    assert found == types;
    hide NalTypes, AnnexB, Decides;
    FirstIs(found, SLICES, 5);
    FirstIs(found, DECIDERS, 7);
    FirstIs(found, DECIDERS, 8);
  }

  lemma TypeBits(ref: nat, t: nat)
    requires ref < 8 && t < 32
    ensures NalType(ref * 32 + t) == t
  {
  }

  lemma {:induction false} FirstIs(types: seq<Byte>, kinds: set<Byte>, t: Byte)
    ensures FirstOf(types, kinds) == Some(t) <==> Decides(types, kinds, t)
  {
    if types != [] {
      var rest := types[1..];
      FirstIs(rest, kinds, t);
      if types[0] in kinds {
        assert types[0] in kinds;
      } else {
        if Decides(rest, kinds, t) {
          var k :| 0 <= k < |rest| && rest[k] == t && t in kinds && forall j | 0 <= j < k :: rest[j] !in kinds;
          assert types[k + 1] == t && forall j | 0 <= j < k + 1 :: j == 0 || types[j] == rest[j - 1];
        }
        if Decides(types, kinds, t) {
          var k :| 0 <= k < |types| && types[k] == t && t in kinds && forall j | 0 <= j < k :: types[j] !in kinds;
          assert rest[k - 1] == t && forall j | 0 <= j < k - 1 :: rest[j] == types[j + 1];
        }
      }
    }
  }

  /** Every header byte there is, alone. */
  lemma OneNal(ref: nat, t: nat)
    requires ref < 8 && t < 32
    ensures NalTypes(START + [ref * 32 + t]) == [t]
  {
    var d := START + [ref * 32 + t];
    TypesOfOne(d, 4);
    TypeBits(ref, t);
  }

  /** AVCC in, NAL headers out: the types the walker reads off a converted access unit are
      those encoded, and the first that decides gives the answers. */
  lemma EndToEnd(d: seq<Byte>, nals: seq<Nal>, refs: seq<nat>, types: seq<nat>)
    requires Framed(d, nals) && EmulationFree(nals) && HeadedBy(nals, refs, types)
    requires nals != [] ==> |nals[0]| >= 2
    ensures NalTypes(Converted(d)) == types
    ensures IsIdr(Converted(d)) <==> Decides(types, {1, 5}, 5)
    ensures OpensWithSets(Converted(d)) <==> Decides(types, {1, 5, 7, 8}, 7) || Decides(types, {1, 5, 7, 8}, 8)
  {
    ConversionRoundTrip(d, nals);
    WalkTypes(nals, refs, types);
  }

  /** Converting twice is converting once: a start-code stream comes back as it is. */
  lemma ConversionIdempotent(d: seq<Byte>, nals: seq<Nal>)
    ensures d[..if |d| < 4 then 0 else 4] == [0, 0, 0, 1] ==> Converted(d) == d
    ensures Converted(AnnexB(nals)) == AnnexB(nals)
    ensures Converted(Converted(d)) == Converted(d)
  {
    FramedOpens(nals);
    match ParseAvcc(d)
    case None =>
      FramedOpens([]);
    case Some(found) =>
      FramedOpens(found);
  }

  lemma FramedOpens(nals: seq<Nal>)
    ensures nals == [] ==> AnnexB(nals) == [] && Converted([]) == []
    ensures nals != [] ==> OpensWithStart(AnnexB(nals))
  {
    if nals == [] {
      assert ParseAvcc([]) == Some([]);
    } else {
      assert AnnexB(nals)[..4] == START;
    }
  }

  // ---------------------------------------------------------------- the avcC record

  /** Up to `n` length-prefixed sets from `at`; `done` when none was cut short. */
  datatype Sets = Sets(nals: seq<Nal>, at: nat, done: bool)

  function ParseSets(p: seq<Byte>, at: nat, n: nat): (r: Sets)
    requires at <= |p|
    ensures at <= r.at <= |p|
    decreases n
  {
    if n == 0 then Sets([], at, true)
    else if at + 2 > |p| then Sets([], at, false)
    else
      var len := U16Be(p, at);
      if at + 2 + len > |p| then Sets([], at, false)
      else
        var rest := ParseSets(p, at + 2 + len, n - 1);
        rest.(nals := [p[at + 2..at + 2 + len]] + rest.nals)
  }

  /** The parameter sets of an AVCDecoderConfigurationRecord, as far as they parse. */
  function RecordSets(p: seq<Byte>): seq<Nal> {
    if |p| <= 7 || p[0] != 1 then [] else WithPps(p, ParseSets(p, 6, p[5] % 32))
  }

  function WithPps(p: seq<Byte>, sps: Sets): seq<Nal> {
    if !sps.done || sps.at >= |p| then sps.nals
    else sps.nals + ParseSets(p, sps.at + 1, p[sps.at]).nals
  }

  /** One of the two set loops of the source: `n` sets from `at` onto `out`. */
  method AppendSets(out: seq<Byte>, p: seq<Byte>, at: nat, n: nat)
      returns (appended: seq<Byte>, next: nat, done: bool)
    requires at <= |p|
    ensures var r := ParseSets(p, at, n); appended == out + AnnexB(r.nals) && done == r.done
    ensures done ==> next == ParseSets(p, at, n).at
  {
    appended, next := out, at;
    ghost var taken: seq<Nal> := [];
    var all := ParseSets(p, at, n);
    assert taken + all.nals == all.nals;
    for k := 0 to n
      invariant next <= |p|
      invariant appended == out + AnnexB(taken)
      invariant var rest := ParseSets(p, next, n - k);
                all == rest.(nals := taken + rest.nals)
    {
      if next + 2 > |p| {
        assert taken + [] == taken;
        return appended, next, false;
      }
      var len := U16Be(p, next);
      next := next + 2;
      if next + len > |p| {
        assert taken + [] == taken;
        return appended, next, false;
      }
      ghost var rest := ParseSets(p, next + len, n - k - 1);
      assert taken + ([p[next..next + len]] + rest.nals) == taken + [p[next..next + len]] + rest.nals;
      EmitNal(out, taken, p[next..next + len]);
      taken := taken + [p[next..next + len]];
      appended := appended + START;
      appended := appended + p[next..next + len];
      next := next + len;
    }
    assert taken + [] == taken;
    return appended, next, true;
  }

  method AvccRecordToAnnexB(p: seq<Byte>) returns (out: seq<Byte>)
    ensures out == AnnexB(RecordSets(p))
  {
    out := [];
    if |p| <= 7 || p[0] != 1 {
      return;
    }
    ghost var sps := ParseSets(p, 6, p[5] % 32);
    var at, done;
    out, at, done := AppendSets(out, p, 6, p[5] % 32);
    assert out == AnnexB(sps.nals);
    assert RecordSets(p) == WithPps(p, sps);
    if !done || at >= |p| {
      return;
    }
    AnnexBConcat(sps.nals, ParseSets(p, at + 1, p[at]).nals);
    out, at, done := AppendSets(out, p, at + 1, p[at]);
  }

  predicate Printable(sets: seq<Nal>, most: nat) {
    |sets| <= most && forall k | 0 <= k < |sets| :: |sets[k]| < U16_LIMIT
  }

  /** Each set behind its 16-bit big-endian length. */
  function PrintSets(sets: seq<Nal>): seq<Byte>
    requires forall k | 0 <= k < |sets| :: |sets[k]| < U16_LIMIT
  {
    if sets == [] then [] else [|sets[0]| / 0x100, |sets[0]| % 0x100] + sets[0] + PrintSets(sets[1..])
  }

  /** The record with its version byte, any profile, compatibility, level and length
      bytes, and any reserved bits above the SPS count. */
  function PrintRecord(head: seq<Byte>, reserved: nat, sps: seq<Nal>, pps: seq<Nal>): seq<Byte>
    requires |head| == 4 && reserved < 8
    requires Printable(sps, 31) && Printable(pps, 255)
  {
    [1] + head + [reserved * 32 + |sps|] + PrintSets(sps) + [|pps|] + PrintSets(pps)
  }

  /** Where set `k` of the printed record ends. */
  function SetEnd(sps: seq<Nal>, pps: seq<Nal>, k: nat): nat
    requires k < |sps| + |pps|
    requires Printable(sps, 31) && Printable(pps, 255)
  {
    if k < |sps| then 6 + |PrintSets(sps[..k + 1])|
    else 7 + |PrintSets(sps)| + |PrintSets(pps[..k + 1 - |sps|])|
  }

  /** The sets of `sets` that lie wholly in the first `room` bytes of their printing. */
  function Fitting(sets: seq<Nal>, room: int): (n: nat)
    requires forall k | 0 <= k < |sets| :: |sets[k]| < U16_LIMIT
    ensures n <= |sets|
  {
    if sets == [] || 2 + |sets[0]| > room then 0
    else 1 + Fitting(sets[1..], room - 2 - |sets[0]|)
  }

  lemma {:induction false} FittingExact(sets: seq<Nal>, room: int, k: nat)
    requires forall j | 0 <= j < |sets| :: |sets[j]| < U16_LIMIT
    requires k < |sets|
    ensures k < Fitting(sets, room) <==> |PrintSets(sets[..k + 1])| <= room
  {
    var cut := sets[..k + 1];
    assert PrintSets(cut) == [|sets[0]| / 0x100, |sets[0]| % 0x100] + sets[0] + PrintSets(cut[1..]);
    if k > 0 {
      assert cut[1..] == sets[1..][..k];
      FittingExact(sets[1..], room - 2 - |sets[0]|, k - 1);
    }
  }

  /** `p` holds `all` from `at` on, as far as `p` reaches. */
  predicate Printed(p: seq<Byte>, at: nat, all: seq<Byte>) {
    forall i | 0 <= i < |all| && at + i < |p| :: p[at + i] == all[i]
  }

  /** Parsing printed sets, cut off anywhere, yields the ones that fit. */
  lemma {:induction false} ParsePrinted(p: seq<Byte>, at: nat, sets: seq<Nal>)
    requires forall k | 0 <= k < |sets| :: |sets[k]| < U16_LIMIT
    requires at <= |p|
    requires Printed(p, at, PrintSets(sets))
    ensures var r := ParseSets(p, at, |sets|);
            && r.nals == sets[..Fitting(sets, |p| - at)]
            && r.done == (Fitting(sets, |p| - at) == |sets|)
            && (r.done ==> r.at == at + |PrintSets(sets)|)
    decreases |sets|
  {
    if sets != [] && at + 2 <= |p| {
      var next := at + 2 + |sets[0]|;
      PrintedHead(p, at, sets);
      if next <= |p| {
        ParsePrinted(p, next, sets[1..]);
        var n := Fitting(sets[1..], |p| - next);
        assert sets[..1 + n] == [sets[0]] + sets[1..][..n];
      }
    }
  }

  lemma PrintedHead(p: seq<Byte>, at: nat, sets: seq<Nal>)
    requires forall k | 0 <= k < |sets| :: |sets[k]| < U16_LIMIT
    requires sets != [] && at + 2 <= |p|
    requires Printed(p, at, PrintSets(sets))
    ensures U16Be(p, at) == |sets[0]|
    ensures var next := at + 2 + |sets[0]|;
            next <= |p| ==> p[at + 2..next] == sets[0] && Printed(p, next, PrintSets(sets[1..]))
  {
    var all, len := PrintSets(sets), |sets[0]|;
    var rest := PrintSets(sets[1..]);
    assert all == [len / 0x100, len % 0x100] + sets[0] + rest;
    assert p[at] == all[0] == len / 0x100 && p[at + 1] == all[1] == len % 0x100;
    var next := at + 2 + len;
    if next <= |p| {
      forall i | 0 <= i < len ensures p[at + 2 + i] == sets[0][i] {
        assert all[2 + i] == sets[0][i];
      }
      forall i | 0 <= i < |rest| && next + i < |p| ensures p[next + i] == rest[i] {
        assert all[2 + len + i] == rest[i];
      }
    }
  }

  lemma RecordLayout(head: seq<Byte>, reserved: nat, sps: seq<Nal>, pps: seq<Nal>, cut: nat)
    requires |head| == 4 && reserved < 8
    requires Printable(sps, 31) && Printable(pps, 255)
    requires 7 < cut <= |PrintRecord(head, reserved, sps, pps)|
    ensures var p := PrintRecord(head, reserved, sps, pps)[..cut];
            var at := 6 + |PrintSets(sps)|;
            && p[0] == 1 && p[5] % 32 == |sps|
            && Printed(p, 6, PrintSets(sps))
            && (at < cut ==> p[at] == |pps| && cut - at - 1 <= |PrintSets(pps)| && Printed(p, at + 1, PrintSets(pps)))
  {
    var front := [1] + head + [reserved * 32 + |sps|];
    var record := PrintRecord(head, reserved, sps, pps);
    var s, t := PrintSets(sps), PrintSets(pps);
    var at := 6 + |s|;
    assert record == front + s + [|pps|] + t;
    var p := record[..cut];
    forall i | 0 <= i < |s| && 6 + i < |p| ensures p[6 + i] == s[i] {
      assert record[6 + i] == s[i];
    }
    forall i | 0 <= i < |t| && at + 1 + i < |p| ensures p[at + 1 + i] == t[i] {
      assert record[at + 1 + i] == t[i];
    }
    assert record[at] == |pps|;
  }

  /** The sets a cut record yields, by where the cut falls. */
  function Kept(sps: seq<Nal>, pps: seq<Nal>, cut: nat): seq<Nal>
    requires Printable(sps, 31) && Printable(pps, 255)
  {
    var at := 6 + |PrintSets(sps)|;
    if cut <= at then sps[..Fitting(sps, cut - 6)]
    else sps + pps[..Fitting(pps, cut - at - 1)]
  }

  lemma ReadSpsOnly(p: seq<Byte>, sps: seq<Nal>)
    requires Printable(sps, 31)
    requires 7 < |p| <= 6 + |PrintSets(sps)| && p[0] == 1 && p[5] % 32 == |sps| && Printed(p, 6, PrintSets(sps))
    ensures RecordSets(p) == sps[..Fitting(sps, |p| - 6)]
  {
    ParsePrinted(p, 6, sps);
    FittingAll(sps, |p| - 6);
    var read := ParseSets(p, 6, |sps|);
    assert !read.done || read.at == |p|;
    assert RecordSets(p) == read.nals;
  }

  lemma ReadAllSps(p: seq<Byte>, sps: seq<Nal>)
    requires Printable(sps, 31)
    requires 6 + |PrintSets(sps)| < |p| && Printed(p, 6, PrintSets(sps))
    ensures ParseSets(p, 6, |sps|) == Sets(sps, 6 + |PrintSets(sps)|, true)
  {
    ParsePrinted(p, 6, sps);
    FittingAll(sps, |p| - 6);
    assert sps[..|sps|] == sps;
  }

  lemma ReadBoth(p: seq<Byte>, sps: seq<Nal>, pps: seq<Nal>, at: nat)
    requires Printable(sps, 31) && Printable(pps, 255)
    requires 7 < |p| && p[0] == 1 && p[5] % 32 == |sps| && Printed(p, 6, PrintSets(sps))
    requires at == 6 + |PrintSets(sps)| < |p| && p[at] == |pps| && Printed(p, at + 1, PrintSets(pps))
    ensures RecordSets(p) == sps + pps[..Fitting(pps, |p| - at - 1)]
  {
    hide ParseSets, PrintSets, Fitting;
    ReadAllSps(p, sps);
    assert RecordSets(p) == WithPps(p, Sets(sps, at, true)) == sps + ParseSets(p, at + 1, |pps|).nals;
    ParsePrinted(p, at + 1, pps);
  }

  lemma CutRecord(head: seq<Byte>, reserved: nat, sps: seq<Nal>, pps: seq<Nal>, cut: nat)
    requires |head| == 4 && reserved < 8
    requires Printable(sps, 31) && Printable(pps, 255)
    requires cut <= |PrintRecord(head, reserved, sps, pps)|
    ensures RecordSets(PrintRecord(head, reserved, sps, pps)[..cut]) == Kept(sps, pps, cut)
  {
    hide ParseSets, PrintSets, Fitting;
    if cut > 7 {
      RecordLayout(head, reserved, sps, pps, cut);
      var p, at := PrintRecord(head, reserved, sps, pps)[..cut], 6 + |PrintSets(sps)|;
      if cut <= at {
        ReadSpsOnly(p, sps);
      } else {
        ReadBoth(p, sps, pps, at);
      }
    } else {
      NothingFits(sps, cut - 6);
      NothingFits(pps, cut - 7);
    }
  }

  lemma NothingFits(sets: seq<Nal>, room: int)
    requires forall k | 0 <= k < |sets| :: |sets[k]| < U16_LIMIT
    requires room < 2
    ensures Fitting(sets, room) == 0
    ensures sets != [] ==> |PrintSets(sets)| >= 2
  {
  }

  lemma KeptExact(sps: seq<Nal>, pps: seq<Nal>, cut: nat, k: nat)
    requires Printable(sps, 31) && Printable(pps, 255)
    requires k < |sps| + |pps|
    ensures k < |Kept(sps, pps, cut)| <==> SetEnd(sps, pps, k) <= cut
  {
    var at := 6 + |PrintSets(sps)|;
    FittingAll(sps, cut - 6);
    if k < |sps| {
      FittingExact(sps, cut - 6, k);
    } else {
      FittingExact(pps, cut - at - 1, k - |sps|);
    }
  }

  /** A record cut off after `cut` bytes gives exactly the sets wholly inside the cut:
      a prefix of them all, and all of them when nothing is cut. */
  lemma RecordTruncation(head: seq<Byte>, reserved: nat, sps: seq<Nal>, pps: seq<Nal>, cut: nat)
    requires |head| == 4 && reserved < 8
    requires Printable(sps, 31) && Printable(pps, 255)
    requires cut <= |PrintRecord(head, reserved, sps, pps)|
    ensures var record := PrintRecord(head, reserved, sps, pps);
            var sets := RecordSets(record[..cut]);
            && sets <= sps + pps
            && (forall k | 0 <= k < |sps| + |pps| :: k < |sets| <==> SetEnd(sps, pps, k) <= cut)
            && (cut == |record| ==> sets == sps + pps)
  {
    CutRecord(head, reserved, sps, pps, cut);
    forall k | 0 <= k < |sps| + |pps| ensures k < |Kept(sps, pps, cut)| <==> SetEnd(sps, pps, k) <= cut {
      KeptExact(sps, pps, cut, k);
    }
    if cut == |PrintRecord(head, reserved, sps, pps)| {
      FittingAll(pps, |PrintSets(pps)|);
      assert pps[..|pps|] == pps;
    }
  }

  lemma {:induction false} FittingAll(sets: seq<Nal>, room: int)
    requires forall k | 0 <= k < |sets| :: |sets[k]| < U16_LIMIT
    ensures Fitting(sets, room) == |sets| <==> sets == [] || |PrintSets(sets)| <= room
  {
    if sets != [] {
      FittingExact(sets, room, |sets| - 1);
      assert sets[..|sets|] == sets;
    }
  }
}
