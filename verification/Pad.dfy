/** The virtual gamepad: `rgsp-host/src/input.rs`. Absolute pad states in, an evdev edge
    stream out. */
module Pad {
  import opened Common

  /** The codes of the fifteen keys; key i of a pad state is bit i of its mask. */
  const KEYS: seq<int> := [1, 114, 115, 304, 305, 306, 307, 308, 309, 310, 311, 312, 314, 315, 354]

  /** `(code, min, max)`. */
  const AXES: seq<(int, int, int)> := [(3, -32768, 32767), (4, -32768, 32767), (5, 0, 255), (16, -1, 1), (17, -1, 1)]

  /** The order in which `apply` looks at the axes. */
  const AXIS_ORDER: seq<int> := [16, 17, 3, 4, 5]

  /** `keys` is a bitmask over KEYS by index. */
  datatype PadState = PadState(keys: bv32, hatX: int, hatY: int, rx: int, ry: int, rz: int)

  const NEUTRAL: PadState := PadState(0, 0, 0, 0, 0, 0)

  predicate Has(k: bv32, m: bv32) {
    k & m != 0
  }

  function With(k: bv32, m: bv32, down: bool): bv32 {
    if down then k | m else k & !m
  }

  /** `1 << i`, for the fifteen indices there are. */
  function Mask(i: nat): bv32
    requires i < |KEYS|
  {
    [0x1, 0x2, 0x4, 0x8, 0x10, 0x20, 0x40, 0x80, 0x100, 0x200, 0x400, 0x800, 0x1000, 0x2000, 0x4000][i]
  }

  function KeyIndexFrom(code: int, from: nat): (r: Option<nat>)
    requires from <= |KEYS|
    ensures r.Some? ==> from <= r.value < |KEYS| && KEYS[r.value] == code
    decreases |KEYS| - from
  {
    if from == |KEYS| then None else if KEYS[from] == code then Some(from) else KeyIndexFrom(code, from + 1)
  }

  function KeyIndex(code: int): (r: Option<nat>)
    ensures r.Some? ==> r.value < |KEYS| && KEYS[r.value] == code
  {
    KeyIndexFrom(code, 0)
  }

  predicate KeyDown(s: PadState, i: nat)
    requires i < |KEYS|
  {
    Has(s.keys, Mask(i))
  }

  /** `PadState::set_key`: a code the pad lacks changes nothing. */
  function SetKey(s: PadState, code: int, down: bool): PadState {
    match KeyIndex(code)
    case None => s
    case Some(i) => s.(keys := With(s.keys, Mask(i), down))
  }

  const NO_KEYS: bv32 := 0xFFFF_8000

  /** Only bits that stand for a key are set. */
  predicate Normal(s: PadState) {
    !Has(s.keys, NO_KEYS)
  }

  lemma WithOther(k: bv32, m: bv32, n: bv32, down: bool)
    requires !Has(m, n)
    ensures Has(With(k, m, down), n) == Has(k, n)
  {
  }

  lemma WithOwn(k: bv32, m: bv32, down: bool)
    requires Has(m, m)
    ensures Has(With(k, m, down), m) == down
  {
  }

  lemma MasksDiffer(i: nat, j: nat)
    requires i < |KEYS| && j < |KEYS|
    ensures Has(Mask(i), Mask(j)) == (i == j)
  {
  }

  lemma MaskIsKeyBit(i: nat)
    requires i < |KEYS|
    ensures !Has(Mask(i), NO_KEYS)
  {
  }

  /** `set_key` moves its own bit and no other. */
  lemma SetKeyBit(s: PadState, code: int, down: bool, j: nat)
    requires j < |KEYS|
    ensures KeyDown(SetKey(s, code, down), j) == if KeyIndex(code) == Some(j) then down else KeyDown(s, j)
  {
    hide Mask, KeyIndexFrom, KeyIndex, Has, With;
    if KeyIndex(code).Some? {
      var i := KeyIndex(code).value;
      MasksDiffer(i, j);
      if i == j {
        WithOwn(s.keys, Mask(i), down);
      } else {
        WithOther(s.keys, Mask(i), Mask(j), down);
      }
    }
  }

  lemma SetKeyNormal(s: PadState, code: int, down: bool)
    requires Normal(s)
    ensures Normal(SetKey(s, code, down))
  {
    hide Mask, KeyIndexFrom, KeyIndex, Has, With;
    if KeyIndex(code).Some? {
      var i := KeyIndex(code).value;
      MaskIsKeyBit(i);
      WithOther(s.keys, Mask(i), NO_KEYS, down);
    }
  }

  lemma MaskValues()
    ensures Mask(0) == 0x1 && Mask(1) == 0x2 && Mask(2) == 0x4 && Mask(3) == 0x8 && Mask(4) == 0x10
    ensures Mask(5) == 0x20 && Mask(6) == 0x40 && Mask(7) == 0x80 && Mask(8) == 0x100 && Mask(9) == 0x200
    ensures Mask(10) == 0x400 && Mask(11) == 0x800 && Mask(12) == 0x1000 && Mask(13) == 0x2000 && Mask(14) == 0x4000
  {
  }

  lemma BitsDecide(a: bv32, b: bv32)
    requires !Has(a, NO_KEYS) && !Has(b, NO_KEYS)
    requires Has(a, 0x1) == Has(b, 0x1) && Has(a, 0x2) == Has(b, 0x2) && Has(a, 0x4) == Has(b, 0x4)
    requires Has(a, 0x8) == Has(b, 0x8) && Has(a, 0x10) == Has(b, 0x10) && Has(a, 0x20) == Has(b, 0x20)
    requires Has(a, 0x40) == Has(b, 0x40) && Has(a, 0x80) == Has(b, 0x80) && Has(a, 0x100) == Has(b, 0x100)
    requires Has(a, 0x200) == Has(b, 0x200) && Has(a, 0x400) == Has(b, 0x400) && Has(a, 0x800) == Has(b, 0x800)
    requires Has(a, 0x1000) == Has(b, 0x1000) && Has(a, 0x2000) == Has(b, 0x2000) && Has(a, 0x4000) == Has(b, 0x4000)
    ensures a == b
  {
  }

  /** The mask is exactly the set of keys held. */
  lemma KeysDecide(s: PadState, t: PadState)
    requires Normal(s) && Normal(t)
    requires forall i: nat | i < |KEYS| :: KeyDown(s, i) == KeyDown(t, i)
    ensures s.keys == t.keys
  {
    MaskValues();
    hide Mask, Has;
    assert KeyDown(s, 0) == KeyDown(t, 0) && KeyDown(s, 1) == KeyDown(t, 1) && KeyDown(s, 2) == KeyDown(t, 2);
    assert KeyDown(s, 3) == KeyDown(t, 3) && KeyDown(s, 4) == KeyDown(t, 4) && KeyDown(s, 5) == KeyDown(t, 5);
    assert KeyDown(s, 6) == KeyDown(t, 6) && KeyDown(s, 7) == KeyDown(t, 7) && KeyDown(s, 8) == KeyDown(t, 8);
    assert KeyDown(s, 9) == KeyDown(t, 9) && KeyDown(s, 10) == KeyDown(t, 10) && KeyDown(s, 11) == KeyDown(t, 11);
    assert KeyDown(s, 12) == KeyDown(t, 12) && KeyDown(s, 13) == KeyDown(t, 13) && KeyDown(s, 14) == KeyDown(t, 14);
    BitsDecide(s.keys, t.keys);
  }

  // ---------------------------------------------------------------- events

  /** evdev's EV_KEY, EV_ABS and SYN_REPORT. */
  datatype Event = Key(code: int, value: int) | Abs(code: int, value: int) | Syn

  /** What a device that started neutral shows for a code after a stream of events. */
  function Replay(events: seq<Event>, of: Event): int
    requires !of.Syn?
  {
    if events == [] then 0
    else
      var last := events[|events| - 1];
      if SameCode(last, of) then last.value else Replay(events[..|events| - 1], of)
  }

  predicate SameCode(a: Event, b: Event) {
    (a.Key? && b.Key? && a.code == b.code) || (a.Abs? && b.Abs? && a.code == b.code)
  }

  /** What a pad state says about a code. */
  function Shows(s: PadState, of: Event): int
    requires !of.Syn?
  {
    match of
    case Key(code, _) => if KeyIndex(code).Some? && KeyDown(s, KeyIndex(code).value) then 1 else 0
    case Abs(code, _) => AxisOf(s, code)
  }

  function AxisOf(s: PadState, code: int): int {
    if code == 16 then s.hatX
    else if code == 17 then s.hatY
    else if code == 3 then s.rx
    else if code == 4 then s.ry
    else if code == 5 then s.rz
    else 0
  }

  /** The stream replays to the state, code by code. */
  ghost predicate InSync(events: seq<Event>, s: PadState) {
    forall of: Event | !of.Syn? :: Replay(events, of) == Shows(s, of)
  }

  /** Every event changes what the device shows: a press follows a release, and no value
      is repeated. */
  ghost predicate TrueEdges(events: seq<Event>) {
    forall k | 0 <= k < |events| && !events[k].Syn? :: Replay(events[..k], events[k]) != events[k].value
  }

  /** What `apply` checks, in order: the keys of the table, then the axes. */
  function Slot(s: PadState, i: nat): (e: Event)
    requires i < |KEYS| + |AXIS_ORDER|
    ensures !e.Syn?
  {
    if i < |KEYS| then Key(KEYS[i], if KeyDown(s, i) then 1 else 0)
    else Abs(AXIS_ORDER[i - |KEYS|], AxisOf(s, AXIS_ORDER[i - |KEYS|]))
  }

  const SLOTS: nat := |KEYS| + |AXIS_ORDER|

  /** The changes among the first n slots. */
  function Changes(last: PadState, now: PadState, n: nat): seq<Event>
    requires n <= SLOTS
  {
    if n == 0 then []
    else if Slot(now, n - 1) != Slot(last, n - 1) then Changes(last, now, n - 1) + [Slot(now, n - 1)]
    else Changes(last, now, n - 1)
  }

  /** One report: nothing when nothing changed, else the changes and one SYN. */
  function Report(last: PadState, now: PadState): seq<Event> {
    if now == last then [] else Changes(last, now, SLOTS) + [Syn]
  }

  // ---------------------------------------------------------------- properties of a report

  lemma CodesDistinct(i: nat, j: nat)
    requires i < |KEYS| && j < |KEYS|
    ensures KEYS[i] == KEYS[j] <==> i == j
  {
  }

  lemma AxesDistinct(i: nat, j: nat)
    requires i < |AXIS_ORDER| && j < |AXIS_ORDER|
    ensures AXIS_ORDER[i] == AXIS_ORDER[j] <==> i == j
  {
  }

  lemma SlotsDistinct(s: PadState, t: PadState, i: nat, j: nat)
    requires i < SLOTS && j < SLOTS
    ensures SameCode(Slot(s, i), Slot(t, j)) <==> i == j
  {
    if i < |KEYS| && j < |KEYS| {
      CodesDistinct(i, j);
    } else if i >= |KEYS| && j >= |KEYS| {
      AxesDistinct(i - |KEYS|, j - |KEYS|);
    }
  }

  lemma IndexOfKey(i: nat)
    requires i < |KEYS|
    ensures KeyIndex(KEYS[i]) == Some(i)
  {
    if KeyIndex(KEYS[i]).Some? {
      CodesDistinct(KeyIndex(KEYS[i]).value, i);
    }
    FoundFrom(i, 0);
  }

  lemma {:induction false} FoundFrom(i: nat, from: nat)
    requires from <= i < |KEYS|
    ensures KeyIndexFrom(KEYS[i], from).Some?
    decreases i - from
  {
    if KEYS[from] != KEYS[i] {
      FoundFrom(i, from + 1);
    }
  }

  /** A slot shows what the state says. */
  lemma SlotShows(s: PadState, i: nat)
    requires i < SLOTS
    ensures Shows(s, Slot(s, i)) == Slot(s, i).value
  {
    if i < |KEYS| {
      IndexOfKey(i);
    }
  }

  lemma SlotOfSameCode(s: PadState, t: PadState, i: nat)
    requires i < SLOTS
    ensures SameCode(Slot(s, i), Slot(t, i))
    ensures Slot(s, i) == Slot(t, i) <==> Slot(s, i).value == Slot(t, i).value
  {
  }

  /** A code outside every slot reads 0 in every state. */
  lemma NoSlot(s: PadState, of: Event)
    requires !of.Syn? && forall i: nat | i < SLOTS :: !SameCode(Slot(s, i), of)
    ensures Shows(s, of) == 0
  {
    if of.Key? {
      if KeyIndex(of.code).Some? {
        assert SameCode(Slot(s, KeyIndex(of.code).value), of);
      }
    } else {
      assert Slot(s, 15).code == 16 && Slot(s, 16).code == 17;
      assert Slot(s, 17).code == 3 && Slot(s, 18).code == 4 && Slot(s, 19).code == 5;
      assert !SameCode(Slot(s, 15), of) && !SameCode(Slot(s, 16), of);
      assert !SameCode(Slot(s, 17), of) && !SameCode(Slot(s, 18), of) && !SameCode(Slot(s, 19), of);
    }
  }

  lemma {:induction false} ReplayByCode(events: seq<Event>, a: Event, b: Event)
    requires SameCode(a, b)
    ensures Replay(events, a) == Replay(events, b)
  {
    if events != [] {
      ReplayByCode(events[..|events| - 1], a, b);
    }
  }

  lemma ReplaySnoc(events: seq<Event>, e: Event, of: Event)
    requires !of.Syn?
    ensures Replay(events + [e], of) == if SameCode(e, of) then e.value else Replay(events, of)
  {
    assert (events + [e])[..|events|] == events;
  }

  lemma ShowsByCode(s: PadState, a: Event, b: Event)
    requires SameCode(a, b)
    ensures Shows(s, a) == Shows(s, b)
  {
  }

  /** The changes among the first n slots set those of them that differ, and leave what
      the device shows in every other slot. */
  lemma {:induction false} ReplayChange(events: seq<Event>, last: PadState, now: PadState, n: nat, i: nat)
    requires n <= SLOTS && i < SLOTS
    ensures Replay(events + Changes(last, now, n), Slot(now, i))
         == if i < n && Slot(now, i) != Slot(last, i) then Slot(now, i).value else Replay(events, Slot(now, i))
    decreases n
  {
    hide Slot, Shows, Replay, SameCode;
    if n == 0 {
      assert events + [] == events;
    } else {
      ReplayChange(events, last, now, n - 1, i);
      var front := Changes(last, now, n - 1);
      if Slot(now, n - 1) != Slot(last, n - 1) {
        assert events + (front + [Slot(now, n - 1)]) == (events + front) + [Slot(now, n - 1)];
        ReplaySnoc(events + front, Slot(now, n - 1), Slot(now, i));
        SlotsDistinct(now, now, n - 1, i);
      }
    }
  }

  /** From a device in sync, the first n slots show the new value and the rest the old. */
  lemma ReplaySlot(events: seq<Event>, last: PadState, now: PadState, n: nat, i: nat)
    requires InSync(events, last) && n <= SLOTS && i < SLOTS
    ensures Replay(events + Changes(last, now, n), Slot(now, i)) == (if i < n then Slot(now, i) else Slot(last, i)).value
  {
    hide Changes, Slot, Shows, Replay, SameCode;
    ReplayChange(events, last, now, n, i);
    SlotOfSameCode(now, last, i);
    ReplayByCode(events, Slot(now, i), Slot(last, i));
    SlotShows(last, i);
  }

  lemma {:induction false} ReplayNoSlot(events: seq<Event>, last: PadState, now: PadState, n: nat, of: Event)
    requires n <= SLOTS && !of.Syn?
    requires forall i: nat | i < SLOTS :: !SameCode(Slot(now, i), of)
    ensures Replay(events + Changes(last, now, n), of) == Replay(events, of)
    decreases n
  {
    hide Slot, Shows, Replay, SameCode;
    if n == 0 {
      assert events + [] == events;
    } else {
      ReplayNoSlot(events, last, now, n - 1, of);
      var front := Changes(last, now, n - 1);
      if Slot(now, n - 1) != Slot(last, n - 1) {
        assert events + (front + [Slot(now, n - 1)]) == (events + front) + [Slot(now, n - 1)];
        ReplaySnoc(events + front, Slot(now, n - 1), of);
      }
    }
  }

  lemma NoSlotEither(s: PadState, t: PadState, of: Event)
    requires forall i: nat | i < SLOTS :: !SameCode(Slot(s, i), of)
    ensures forall i: nat | i < SLOTS :: !SameCode(Slot(t, i), of)
  {
    forall i: nat | i < SLOTS ensures !SameCode(Slot(t, i), of) {
      assert !SameCode(Slot(s, i), of);
    }
  }

  /** Whatever was in sync stays in sync: the stream replays to the new state. */
  lemma ReportReplays(events: seq<Event>, last: PadState, now: PadState)
    requires InSync(events, last)
    ensures InSync(events + Report(last, now), now)
  {
    if now == last {
      assert events + [] == events;
    } else {
      var changes := Changes(last, now, SLOTS);
      assert events + (changes + [Syn]) == (events + changes) + [Syn];
      forall of: Event | !of.Syn? ensures Replay(events + Report(last, now), of) == Shows(now, of) {
        ReplaySnoc(events + changes, Syn, of);
        ReplayAny(events, last, now, of);
      }
    }
  }

  lemma ReplayAny(events: seq<Event>, last: PadState, now: PadState, of: Event)
    requires InSync(events, last) && !of.Syn?
    ensures Replay(events + Changes(last, now, SLOTS), of) == Shows(now, of)
  {
    hide Changes, Slot, Shows, Replay, SameCode;
    var all := events + Changes(last, now, SLOTS);
    if i: nat :| i < SLOTS && SameCode(Slot(now, i), of) {
      ReplaySlot(events, last, now, SLOTS, i);
      ReplayByCode(all, Slot(now, i), of);
      ShowsByCode(now, Slot(now, i), of);
      SlotShows(now, i);
    } else {
      ReplayNoSlot(events, last, now, SLOTS, of);
      NoSlotEither(now, last, of);
      NoSlot(last, of);
      NoSlot(now, of);
    }
  }

  lemma EdgesSnoc(events: seq<Event>, e: Event)
    requires TrueEdges(events)
    requires e.Syn? || Replay(events, e) != e.value
    ensures TrueEdges(events + [e])
  {
    var all := events + [e];
    forall k | 0 <= k < |all| && !all[k].Syn? ensures Replay(all[..k], all[k]) != all[k].value {
      if k < |events| {
        assert all[..k] == events[..k] && all[k] == events[k];
      } else {
        assert all[..k] == events;
      }
    }
  }

  lemma {:induction false} ChangesAreEdges(events: seq<Event>, last: PadState, now: PadState, n: nat)
    requires InSync(events, last) && TrueEdges(events) && n <= SLOTS
    ensures TrueEdges(events + Changes(last, now, n))
    decreases n
  {
    hide Slot, Replay, Shows, TrueEdges, InSync;
    if n == 0 {
      assert events + [] == events;
    } else {
      ChangesAreEdges(events, last, now, n - 1);
      var front := Changes(last, now, n - 1);
      if Slot(now, n - 1) != Slot(last, n - 1) {
        SlotOfSameCode(now, last, n - 1);
        ReplaySlot(events, last, now, n - 1, n - 1);
        EdgesSnoc(events + front, Slot(now, n - 1));
        assert events + (front + [Slot(now, n - 1)]) == (events + front) + [Slot(now, n - 1)];
      }
    }
  }

  /** A report holds true edges only. */
  lemma ReportIsEdges(events: seq<Event>, last: PadState, now: PadState)
    requires InSync(events, last) && TrueEdges(events)
    ensures TrueEdges(events + Report(last, now))
  {
    if now == last {
      assert events + [] == events;
    } else {
      ChangesAreEdges(events, last, now, SLOTS);
      var changes := Changes(last, now, SLOTS);
      EdgesSnoc(events + changes, Syn);
      assert events + (changes + [Syn]) == (events + changes) + [Syn];
    }
  }

  /** True edges alternate: between two events of one code with none between them the
      value changes, and the first event of a code leaves 0. */
  lemma EdgesAlternate(events: seq<Event>, j: nat, k: nat)
    requires TrueEdges(events) && j <= k < |events| && !events[k].Syn?
    requires forall m | j < m < k :: !SameCode(events[m], events[k])
    ensures j < k && SameCode(events[j], events[k]) ==> events[j].value != events[k].value
    ensures (forall m | 0 <= m < k :: !SameCode(events[m], events[k])) ==> events[k].value != 0
  {
    if j < k && SameCode(events[j], events[k]) {
      LastOfCode(events[..k], j, events[k]);
    }
    if forall m | 0 <= m < k :: !SameCode(events[m], events[k]) {
      NeverSeen(events[..k], events[k]);
    }
  }

  lemma {:induction false} LastOfCode(events: seq<Event>, j: nat, of: Event)
    requires j < |events| && !of.Syn? && SameCode(events[j], of)
    requires forall m | j < m < |events| :: !SameCode(events[m], of)
    ensures Replay(events, of) == events[j].value
    decreases |events|
  {
    if j + 1 < |events| {
      LastOfCode(events[..|events| - 1], j, of);
    }
  }

  lemma {:induction false} NeverSeen(events: seq<Event>, of: Event)
    requires !of.Syn? && forall m | 0 <= m < |events| :: !SameCode(events[m], of)
    ensures Replay(events, of) == 0
  {
    if events != [] {
      NeverSeen(events[..|events| - 1], of);
    }
  }

  /** A report names a code at most once and ends in its only SYN. */
  predicate WellFormedReport(r: seq<Event>) {
    r != [] && r[|r| - 1] == Syn && OncePerCode(r[..|r| - 1])
  }

  predicate OncePerCode(c: seq<Event>) {
    && (forall i | 0 <= i < |c| :: !c[i].Syn?)
    && (forall i, j | 0 <= i < j < |c| :: !SameCode(c[i], c[j]))
  }

  /** The changes among the first n slots leave the later slots' codes alone. */
  lemma {:induction false} ChangesBelow(last: PadState, now: PadState, n: nat, i: nat)
    requires n <= i < SLOTS
    ensures forall k | 0 <= k < |Changes(last, now, n)| :: !SameCode(Changes(last, now, n)[k], Slot(now, i))
    decreases n
  {
    hide Slot, SameCode;
    if n > 0 {
      ChangesBelow(last, now, n - 1, i);
      SlotsDistinct(now, now, n - 1, i);
    }
  }

  lemma {:induction false} ChangesDistinct(last: PadState, now: PadState, n: nat)
    requires n <= SLOTS
    ensures OncePerCode(Changes(last, now, n))
    decreases n
  {
    hide SameCode;
    if n > 0 {
      ChangesDistinct(last, now, n - 1);
      ChangesBelow(last, now, n - 1, n - 1);
    }
  }

  lemma ReportWellFormed(last: PadState, now: PadState)
    requires now != last
    ensures WellFormedReport(Report(last, now))
  {
    hide Changes, Slot, SameCode, OncePerCode;
    ChangesDistinct(last, now, SLOTS);
    var r := Report(last, now);
    assert r[..|r| - 1] == Changes(last, now, SLOTS);
  }

  /** The value ranges the device declares. */
  predicate InRange(s: PadState) {
    && -1 <= s.hatX <= 1 && -1 <= s.hatY <= 1
    && -32768 <= s.rx <= 32767 && -32768 <= s.ry <= 32767
    && 0 <= s.rz <= 255
  }

  predicate Advertised(e: Event) {
    match e
    case Key(code, value) => code in KEYS && value in {0, 1}
    case Abs(code, value) => exists k | 0 <= k < |AXES| :: AXES[k].0 == code && AXES[k].1 <= value <= AXES[k].2
    case Syn => true
  }

  lemma SlotAdvertised(s: PadState, i: nat)
    requires InRange(s) && i < SLOTS
    ensures Advertised(Slot(s, i))
  {
    if i >= |KEYS| {
      var k := [3, 4, 0, 1, 2][i - |KEYS|];
      assert AXES[k].0 == AXIS_ORDER[i - |KEYS|];
    }
  }

  lemma {:induction false} ChangesAdvertised(last: PadState, now: PadState, n: nat)
    requires InRange(now) && n <= SLOTS
    ensures forall k | 0 <= k < |Changes(last, now, n)| :: Advertised(Changes(last, now, n)[k])
    decreases n
  {
    hide Slot, Advertised;
    if n > 0 {
      ChangesAdvertised(last, now, n - 1);
      SlotAdvertised(now, n - 1);
    }
  }

  lemma ReportAdvertised(last: PadState, now: PadState)
    requires InRange(now)
    ensures forall k | 0 <= k < |Report(last, now)| :: Advertised(Report(last, now)[k])
  {
    SynAdvertised();
    hide Changes, Advertised;
    ChangesAdvertised(last, now, SLOTS);
  }

  lemma SynAdvertised()
    ensures Advertised(Syn)
  {
  }

  /** The slots decide a normal state. */
  lemma SlotsDecide(last: PadState, now: PadState)
    requires Normal(last) && Normal(now)
    requires forall i: nat | i < SLOTS :: Slot(now, i) == Slot(last, i)
    ensures now == last
  {
    forall i: nat | i < |KEYS| ensures KeyDown(last, i) == KeyDown(now, i) {
      assert Slot(now, i) == Slot(last, i);
    }
    KeysDecide(last, now);
    assert Slot(now, 15) == Slot(last, 15) && Slot(now, 16) == Slot(last, 16);
    assert Slot(now, 17) == Slot(last, 17) && Slot(now, 18) == Slot(last, 18) && Slot(now, 19) == Slot(last, 19);
  }

  lemma DifferInSlot(last: PadState, now: PadState)
    requires Normal(last) && Normal(now) && now != last
    ensures exists i: nat :: i < SLOTS && Slot(now, i) != Slot(last, i)
  {
    hide Slot, Normal;
    if forall i: nat | i < SLOTS :: Slot(now, i) == Slot(last, i) {
      SlotsDecide(last, now);
    }
  }

  lemma {:induction false} ChangesNonEmpty(last: PadState, now: PadState, n: nat, i: nat)
    requires i < n <= SLOTS && Slot(now, i) != Slot(last, i)
    ensures Changes(last, now, n) != []
    decreases n
  {
    hide Slot;
    if i < n - 1 {
      ChangesNonEmpty(last, now, n - 1, i);
    }
  }

  /** A write that fails part way: the device is still what `last` says exactly when
      nothing at all was written. */
  lemma PartialWrite(events: seq<Event>, last: PadState, now: PadState, m: nat)
    requires InSync(events, last) && Normal(last) && Normal(now) && now != last
    requires m < |Report(last, now)|
    ensures InSync(events + Report(last, now)[..m], last) <==> m == 0
  {
    var report, c := Report(last, now), Changes(last, now, SLOTS);
    if m == 0 {
      assert events + report[..0] == events;
    } else {
      var first := c[0];
      assert report[..m] == c[..m];
      ReportIsEdgesAt(events, last, now);
      ChangesDistinct(last, now, SLOTS);
      LastWord(events, c[..m], 0);
      assert Replay(events + c[..m], first) == first.value != Replay(events, first) == Shows(last, first);
    }
  }

  /** The first change is one. */
  lemma ReportIsEdgesAt(events: seq<Event>, last: PadState, now: PadState)
    requires InSync(events, last) && Normal(last) && Normal(now) && now != last
    ensures var c := Changes(last, now, SLOTS);
            c != [] && !c[0].Syn? && Replay(events, c[0]) != c[0].value
  {
    DifferInSlot(last, now);
    var i: nat :| i < SLOTS && Slot(now, i) != Slot(last, i);
    ChangesNonEmpty(last, now, SLOTS, i);
    FirstChange(events, last, now, SLOTS);
  }

  lemma {:induction false} FirstChange(events: seq<Event>, last: PadState, now: PadState, n: nat)
    requires InSync(events, last) && n <= SLOTS && Changes(last, now, n) != []
    ensures var c := Changes(last, now, n);
            !c[0].Syn? && Replay(events, c[0]) != c[0].value
    decreases n
  {
    hide Slot, Replay, Shows, SameCode;
    var front := Changes(last, now, n - 1);
    if front != [] {
      FirstChange(events, last, now, n - 1);
    } else {
      SlotOfSameCode(now, last, n - 1);
      ReplaySlot(events, last, now, n - 1, n - 1);
      assert events + [] == events;
    }
  }

  /** Of a run of events that names a code once, that event decides it. */
  lemma LastWord(events: seq<Event>, c: seq<Event>, k: nat)
    requires OncePerCode(c) && k < |c|
    ensures Replay(events + c, c[k]) == c[k].value
  {
    hide Replay;
    var all := events + c;
    forall m | |events| + k < m < |all| ensures !SameCode(all[m], c[k]) {
      assert all[m] == c[m - |events|] && !SameCode(c[k], c[m - |events|]);
    }
    LastOfCode(all, |events| + k, c[k]);
  }

  /** A run of events that never names a code leaves it. */
  lemma {:induction false} Untouched(events: seq<Event>, c: seq<Event>, of: Event)
    requires !of.Syn? && forall k | 0 <= k < |c| :: !SameCode(c[k], of)
    ensures Replay(events + c, of) == Replay(events, of)
    decreases |c|
  {
    if c == [] {
      assert events + c == events;
    } else {
      var n := |c| - 1;
      assert events + c == (events + c[..n]) + [c[n]];
      ReplaySnoc(events + c[..n], c[n], of);
      Untouched(events, c[..n], of);
    }
  }

  lemma {:induction false} ChangeIsSlot(last: PadState, now: PadState, n: nat, k: nat) returns (i: nat)
    requires n <= SLOTS && k < |Changes(last, now, n)|
    ensures i < n && Changes(last, now, n)[k] == Slot(now, i) != Slot(last, i)
    decreases n
  {
    hide Slot;
    if k < |Changes(last, now, n - 1)| {
      i := ChangeIsSlot(last, now, n - 1, k);
    } else {
      i := n - 1;
    }
  }

  lemma {:induction false} NoChanges(s: PadState, n: nat)
    requires n <= SLOTS
    ensures Changes(s, s, n) == []
    decreases n
  {
    hide Slot;
    if n > 0 {
      NoChanges(s, n - 1);
    }
  }

  /** A whole report on top of any stream, in sync or not: the differing slots take their
      new value, all else stays. */
  lemma ReplayReport(events: seq<Event>, last: PadState, now: PadState, i: nat)
    requires i < SLOTS
    ensures Replay(events + Report(last, now), Slot(now, i))
         == if Slot(now, i) != Slot(last, i) then Slot(now, i).value else Replay(events, Slot(now, i))
  {
    hide Slot, Replay, Changes;
    ReplayChange(events, last, now, SLOTS, i);
    if now == last {
      NoChanges(now, SLOTS);
    } else {
      var c := Changes(last, now, SLOTS);
      assert events + (c + [Syn]) == (events + c) + [Syn];
      ReplaySnoc(events + c, Syn, Slot(now, i));
    }
  }

  /** What `release_all` leaves in slot i after a report failed with m events written. */
  lemma ReleaseSlot(events: seq<Event>, last: PadState, now: PadState, m: nat, i: nat)
    requires InSync(events, last) && m < |Report(last, now)| && i < SLOTS
    ensures Replay((events + Report(last, now)[..m]) + Report(last, NEUTRAL), Slot(NEUTRAL, i))
         == if Slot(now, i) in Report(last, now)[..m] && Slot(last, i).value == 0 then Slot(now, i).value else 0
  {
    var c, written := Changes(last, now, SLOTS), Report(last, now)[..m];
    assert written == c[..m];
    NeutralSlot(i);
    SlotOfSameCode(NEUTRAL, last, i);
    ReplayReport(events + written, last, NEUTRAL, i);
    if Slot(last, i).value == 0 {
      ChangesDistinct(last, now, SLOTS);
      SlotOfSameCode(now, last, i);
      ReplayByCode(events + written, Slot(NEUTRAL, i), Slot(now, i));
      if Slot(now, i) in written {
        var k :| 0 <= k < m && written[k] == Slot(now, i);
        LastWord(events, written, k);
      } else {
        forall k | 0 <= k < m ensures !SameCode(written[k], Slot(now, i)) {
          var j := ChangeIsSlot(last, now, SLOTS, k);
          SlotsDistinct(now, now, j, i);
        }
        Untouched(events, written, Slot(now, i));
        ReplayByCode(events, Slot(now, i), Slot(last, i));
        SlotShows(last, i);
      }
    }
  }

  lemma NeutralSlot(i: nat)
    requires i < SLOTS
    ensures Slot(NEUTRAL, i).value == 0
  {
  }

  predicate AtRest(s: PadState, e: Event) {
    !e.Syn? && Shows(s, e) == 0
  }

  /** A failed write followed by `release_all`: the device ends neutral exactly when no
      code was written that `last` has at rest. `last` still says such a code is at rest,
      so the release does not repeat it. */
  lemma ReleaseAfterPartialWrite(events: seq<Event>, last: PadState, now: PadState, m: nat)
    requires InSync(events, last) && m < |Report(last, now)|
    ensures InSync((events + Report(last, now)[..m]) + Report(last, NEUTRAL), NEUTRAL)
       <==> forall e | e in Report(last, now)[..m] :: !AtRest(last, e)
  {
    var c, written := Changes(last, now, SLOTS), Report(last, now)[..m];
    var all := (events + written) + Report(last, NEUTRAL);
    assert written == c[..m];
    if InSync(all, NEUTRAL) {
      forall e | e in written ensures !AtRest(last, e) {
        StuckIfAtRest(events, last, now, m, e);
      }
    }
    if forall e | e in written :: !AtRest(last, e) {
      forall of: Event | !of.Syn? ensures Replay(all, of) == Shows(NEUTRAL, of) {
        ReleasedIfHeld(events, last, now, m, of);
      }
    }
  }

  /** From rest, whatever a failed write got through stays: there is nothing to release. */
  lemma StuckFromNeutral(events: seq<Event>, now: PadState, m: nat)
    requires InSync(events, NEUTRAL) && 0 < m < |Report(NEUTRAL, now)|
    ensures Report(NEUTRAL, NEUTRAL) == []
    ensures !InSync((events + Report(NEUTRAL, now)[..m]) + Report(NEUTRAL, NEUTRAL), NEUTRAL)
  {
    var e := Report(NEUTRAL, now)[..m][0];
    StuckIfAtRest(events, NEUTRAL, now, m, e);
    NeutralShows(e);
    ReleaseAfterPartialWrite(events, NEUTRAL, now, m);
    assert e in Report(NEUTRAL, now)[..m] && AtRest(NEUTRAL, e);
  }

  /** The A button, pressed as the write fails behind it: it stays down. */
  lemma StuckKey()
    ensures var now := SetKey(NEUTRAL, 304, true);
            |Report(NEUTRAL, now)| > 1 && !InSync(([] + Report(NEUTRAL, now)[..1]) + Report(NEUTRAL, NEUTRAL), NEUTRAL)
  {
    var now := SetKey(NEUTRAL, 304, true);
    IndexOfKey(3);
    SetKeyBit(NEUTRAL, 304, true, 3);
    NeutralInSync();
    assert !Has(0, Mask(3));
    assert Slot(now, 3) != Slot(NEUTRAL, 3);
    ChangesNonEmpty(NEUTRAL, now, SLOTS, 3);
    StuckFromNeutral([], now, 1);
  }

  lemma StuckIfAtRest(events: seq<Event>, last: PadState, now: PadState, m: nat, e: Event)
    requires InSync(events, last) && m < |Report(last, now)| && e in Report(last, now)[..m]
    ensures !e.Syn?
    ensures AtRest(last, e) ==> Replay((events + Report(last, now)[..m]) + Report(last, NEUTRAL), e) != Shows(NEUTRAL, e)
  {
    var written := Report(last, now)[..m];
    var k :| 0 <= k < m && written[k] == e;
    var i := ChangeIsSlot(last, now, SLOTS, k);
    SlotOfSameCode(now, last, i);
    SlotOfSameCode(now, NEUTRAL, i);
    ShowsByCode(last, e, Slot(last, i));
    SlotShows(last, i);
    ReleaseSlot(events, last, now, m, i);
    ReplayByCode((events + written) + Report(last, NEUTRAL), Slot(NEUTRAL, i), e);
    NeutralShows(e);
  }

  lemma ReleasedIfHeld(events: seq<Event>, last: PadState, now: PadState, m: nat, of: Event)
    requires InSync(events, last) && m < |Report(last, now)| && !of.Syn?
    requires forall e | e in Report(last, now)[..m] :: !AtRest(last, e)
    ensures Replay((events + Report(last, now)[..m]) + Report(last, NEUTRAL), of) == Shows(NEUTRAL, of)
  {
    var written := Report(last, now)[..m];
    var all := (events + written) + Report(last, NEUTRAL);
    NeutralShows(of);
    if i: nat :| i < SLOTS && SameCode(Slot(NEUTRAL, i), of) {
      ReleaseSlot(events, last, now, m, i);
      ReplayByCode(all, Slot(NEUTRAL, i), of);
      if Slot(now, i) in written {
        SlotOfSameCode(now, last, i);
        ShowsByCode(last, Slot(now, i), Slot(last, i));
        SlotShows(last, i);
      }
    } else {
      NoSlotEither(NEUTRAL, now, of);
      forall k | 0 <= k < m ensures !SameCode(written[k], of) {
        var j := ChangeIsSlot(last, now, SLOTS, k);
      }
      Untouched(events, written, of);
      ReportElsewhere(events + written, last, of);
      NoSlotEither(NEUTRAL, last, of);
      NoSlot(last, of);
    }
  }

  lemma ReportElsewhere(events: seq<Event>, last: PadState, of: Event)
    requires !of.Syn? && forall i: nat | i < SLOTS :: !SameCode(Slot(NEUTRAL, i), of)
    ensures Replay(events + Report(last, NEUTRAL), of) == Replay(events, of)
  {
    hide Slot, Replay, Changes;
    if last == NEUTRAL {
      assert events + [] == events;
    } else {
      var c := Changes(last, NEUTRAL, SLOTS);
      ReplayNoSlot(events, last, NEUTRAL, SLOTS, of);
      assert events + (c + [Syn]) == (events + c) + [Syn];
      ReplaySnoc(events + c, Syn, of);
    }
  }

  // ---------------------------------------------------------------- what the device shows

  /** The hat on ABS_HAT0X and ABS_HAT0Y, the stick on ABS_RX and ABS_RY, the trigger on
      ABS_RZ. */
  predicate ShowsAxes(events: seq<Event>, hatX: int, hatY: int, rx: int, ry: int, rz: int) {
    && Replay(events, Abs(16, 0)) == hatX && Replay(events, Abs(17, 0)) == hatY
    && Replay(events, Abs(3, 0)) == rx && Replay(events, Abs(4, 0)) == ry && Replay(events, Abs(5, 0)) == rz
  }

  /** Key i is down on the device exactly when bit i of the mask is set. */
  predicate ShowsKeys(events: seq<Event>, keys: bv32) {
    forall i: nat | i < 15 :: Replay(events, Key(KEYS[i], 0)) == if keys & (1 << i) != 0 then 1 else 0
  }

  /** A device in sync with a state shows its fields. */
  lemma DeviceShows(events: seq<Event>, s: PadState)
    requires InSync(events, s)
    ensures ShowsAxes(events, s.hatX, s.hatY, s.rx, s.ry, s.rz) && ShowsKeys(events, s.keys)
  {
    hide Replay, Shows;
    forall i: nat | i < 15 ensures Replay(events, Key(KEYS[i], 0)) == if s.keys & (1 << i) != 0 then 1 else 0 {
      KeyShows(s, i);
      assert Replay(events, Key(KEYS[i], 0)) == Shows(s, Key(KEYS[i], 0));
    }
    AxesShow(events, s);
  }

  lemma KeyShows(s: PadState, i: nat)
    requires i < 15
    ensures Shows(s, Key(KEYS[i], 0)) == if s.keys & (1 << i) != 0 then 1 else 0
  {
    IndexOfKey(i);
    KeyBit(s, i);
    hide KeyDown, KeyIndex;
  }

  lemma KeyBit(s: PadState, i: nat)
    requires i < |KEYS|
    ensures KeyDown(s, i) <==> s.keys & (1 << i) != 0
  {
    MaskIsShift(i);
    hide Mask;
  }

  lemma AxesShow(events: seq<Event>, s: PadState)
    requires InSync(events, s)
    ensures ShowsAxes(events, s.hatX, s.hatY, s.rx, s.ry, s.rz)
  {
    hide Replay;
    assert Replay(events, Abs(16, 0)) == Shows(s, Abs(16, 0)) && Replay(events, Abs(17, 0)) == Shows(s, Abs(17, 0));
    assert Replay(events, Abs(3, 0)) == Shows(s, Abs(3, 0)) && Replay(events, Abs(4, 0)) == Shows(s, Abs(4, 0));
    assert Replay(events, Abs(5, 0)) == Shows(s, Abs(5, 0));
  }

  lemma MaskIsShift(i: nat)
    requires i < |KEYS|
    ensures Mask(i) == (1 as bv32) << i
  {
    MaskValues();
  }

  // ---------------------------------------------------------------- the device

  /** The uinput device: `emitted` is every event the kernel has taken. */
  class VirtualPad {
    var last: PadState
    var emitted: seq<Event>

    ghost predicate Valid()
      reads this
    {
      Normal(last) && InRange(last) && forall k | 0 <= k < |emitted| :: Advertised(emitted[k])
    }

    /** Every write so far went through: the device shows what `last` says. */
    ghost predicate Synced()
      reads this
    {
      InSync(emitted, last) && TrueEdges(emitted)
    }

    constructor Open()
      ensures Valid() && Synced() && last == NEUTRAL && emitted == []
    {
      last, emitted := NEUTRAL, [];
      new;
      NeutralInSync();
    }

    /** Write the report from the remembered state to this one. A write may fail having
        taken only some of the events; then nothing is remembered. */
    method Apply(state: PadState) returns (ok: bool, written: nat)
      requires Valid() && Normal(state) && InRange(state)
      modifies this
      ensures Valid()
      ensures written <= |Report(old(last), state)| && (ok <==> written == |Report(old(last), state)|)
      ensures emitted == old(emitted) + Report(old(last), state)[..written]
      ensures last == if ok then state else old(last)
      ensures old(Synced()) ==> TrueEdges(emitted) && (Synced() <==> ok || written == 0)
      ensures old(Synced()) && ok ==>
                ShowsAxes(emitted, state.hatX, state.hatY, state.rx, state.ry, state.rz) && ShowsKeys(emitted, state.keys)
    {
      hide Normal, InRange, InSync, TrueEdges, Advertised, ShowsAxes, ShowsKeys;
      if state == last {
        assert emitted + Report(last, state)[..0] == emitted;
        if InSync(emitted, last) {
          DeviceShows(emitted, state);
        }
        return true, 0;
      }
      var events := [];
      for i := 0 to |KEYS|
        invariant events == Changes(last, state, i) && unchanged(this)
      {
        var now := KeyDown(state, i);
        if now != KeyDown(last, i) {
          events := events + [Key(KEYS[i], if now then 1 else 0)];
        }
      }
      for k := 0 to |AXIS_ORDER|
        invariant events == Changes(last, state, |KEYS| + k) && unchanged(this)
      {
        var code := AXIS_ORDER[k];
        if AxisOf(state, code) != AxisOf(last, code) {
          events := events + [Abs(code, AxisOf(state, code))];
        }
      }
      events := events + [Syn];
      assert events == Report(last, state);
      written :| 0 <= written <= |events|;
      ok := written == |events|;
      if InSync(emitted, last) && TrueEdges(emitted) {
        WriteKeeps(emitted, last, state, written);
      }
      ReportAdvertised(last, state);
      emitted := emitted + events[..written];
      if ok {
        last := state;
        if InSync(emitted, last) {
          DeviceShows(emitted, last);
        }
      }
    }

    /** Release everything. */
    method ReleaseAll() returns (ok: bool, written: nat)
      requires Valid()
      modifies this
      ensures Valid()
      ensures written <= |Report(old(last), NEUTRAL)| && (ok <==> written == |Report(old(last), NEUTRAL)|)
      ensures emitted == old(emitted) + Report(old(last), NEUTRAL)[..written]
      ensures last == if ok then NEUTRAL else old(last)
      ensures old(Synced()) ==> TrueEdges(emitted) && (Synced() <==> ok || written == 0)
      ensures old(Synced()) && ok ==> InSync(emitted, NEUTRAL)
    {
      NeutralNormal();
      ok, written := Apply(NEUTRAL);
    }
  }

  /** What a write of any length leaves of a device in sync. */
  lemma WriteKeeps(events: seq<Event>, last: PadState, now: PadState, m: nat)
    requires InSync(events, last) && TrueEdges(events) && Normal(last) && Normal(now) && now != last
    requires m <= |Report(last, now)|
    ensures TrueEdges(events + Report(last, now)[..m])
    ensures InSync(events + Report(last, now)[..m], if m == |Report(last, now)| then now else last)
       <==> m == |Report(last, now)| || m == 0
  {
    hide Normal, InSync, TrueEdges, Changes;
    var r := Report(last, now);
    ReportReplays(events, last, now);
    ReportIsEdges(events, last, now);
    EdgesPrefix(events + r, |events| + m);
    assert (events + r)[..|events| + m] == events + r[..m];
    if m < |r| {
      PartialWrite(events, last, now, m);
    } else {
      assert r[..m] == r;
    }
  }

  lemma EdgesPrefix(events: seq<Event>, n: nat)
    requires TrueEdges(events) && n <= |events|
    ensures TrueEdges(events[..n])
  {
    forall k | 0 <= k < n && !events[k].Syn? ensures Replay(events[..n][..k], events[k]) != events[k].value {
      assert events[..n][..k] == events[..k];
    }
  }

  lemma NeutralNormal()
    ensures Normal(NEUTRAL) && InRange(NEUTRAL)
  {
  }

  lemma NeutralInSync()
    ensures Normal(NEUTRAL) && InRange(NEUTRAL) && InSync([], NEUTRAL) && TrueEdges([])
  {
    forall of: Event | !of.Syn? ensures Replay([], of) == Shows(NEUTRAL, of) {
      NeutralShows(of);
    }
  }

  lemma NeutralShows(of: Event)
    requires !of.Syn?
    ensures Shows(NEUTRAL, of) == 0
  {
    if of.Key? && KeyIndex(of.code).Some? {
      assert !Has(0, Mask(KeyIndex(of.code).value));
    }
  }
}
