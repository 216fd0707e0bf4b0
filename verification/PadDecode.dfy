/** Client input packets into pad states: `rgsp-host/src/input_decode.rs`, and the task in
    `rgsp-host/src/main.rs` that feeds them to the virtual pad. */
module PadDecode {
  import opened Common
  import opened Pad

  // ---------------------------------------------------------------- the wire

  /** `u16_le` and `u32_le` where the packet is long enough. */
  function U16Le(d: seq<Byte>, at: nat): (n: nat)
    requires at + 2 <= |d|
    ensures n < U16_LIMIT
  {
    d[at] as int + d[at + 1] as int * 0x100
  }

  function U32Le(d: seq<Byte>, at: nat): (n: nat)
    requires at + 4 <= |d|
    ensures n < U32_LIMIT
  {
    U16Le(d, at) + U16Le(d, at + 2) * 0x1_0000
  }

  /** `x as i16`. */
  function Signed16(x: nat): (n: int)
    requires x < U16_LIMIT
    ensures -32768 <= n <= 32767
  {
    if x < 0x8000 then x else x - 0x1_0000
  }

  /** `flags & flag != 0`, for a flag of one bit. */
  predicate HasFlag(flags: nat, flag: nat)
    requires flag > 0
  {
    flags / flag % 2 == 1
  }

  const KEY_DOWN := 0x3
  const KEY_UP := 0x4
  const CONTROLLER := 0xA
  const MULTI_GEN5 := 0xC
  const MULTI := 0xD
  const MULTI_LENGTH := 24

  const UP := 1
  const DOWN := 2
  const LEFT := 4
  const RIGHT := 8

  const BTN_TL2 := 312

  type Flag = x: nat | 0 < x witness 1

  /** `(flag, code)`. */
  const BUTTON_MAP: seq<(Flag, int)> := [
    (0x1000, 304), (0x2000, 305), (0x4000, 307), (0x8000, 308), (0x100, 310), (0x200, 311),
    (0x20, 314), (0x10, 315), (0x400, 354)]

  /** `(virtual key, code)`. */
  const KEYBOARD_MAP: seq<(int, int)> := [
    (0x5A, 304), (0x58, 305), (0x41, 307), (0x53, 308), (0x51, 310), (0x57, 311),
    (0x0D, 315), (0x08, 314), (0x1B, 354)]

  const VK_LEFT := 0x25
  const VK_UP := 0x26
  const VK_RIGHT := 0x27
  const VK_DOWN := 0x28

  // ---------------------------------------------------------------- what a packet does

  /** The buttons of the first n entries of the map. */
  function WithButtons(s: PadState, flags: nat, n: nat): PadState
    requires n <= |BUTTON_MAP|
  {
    if n == 0 then s
    else SetKey(WithButtons(s, flags, n - 1), BUTTON_MAP[n - 1].1, HasFlag(flags, BUTTON_MAP[n - 1].0))
  }

  /** A hat axis; opposing directions held together cancel. */
  function Hat(low: bool, high: bool): int {
    if low && !high then -1 else if high && !low then 1 else 0
  }

  function WithFlags(s: PadState, flags: nat): PadState {
    WithButtons(s, flags, |BUTTON_MAP|).(
      hatX := Hat(HasFlag(flags, LEFT), HasFlag(flags, RIGHT)),
      hatY := Hat(HasFlag(flags, UP), HasFlag(flags, DOWN)))
  }

  function WithTriggers(s: PadState, left: Byte, right: Byte): PadState {
    SetKey(s, BTN_TL2, left > 127).(rz := right as int)
  }

  /** A controller packet with its buttons at `at`; what is cut off leaves its fields. */
  function DecodeController(s: PadState, p: seq<Byte>, at: nat): Option<PadState> {
    if |p| < at + 2 then None
    else
      var buttons := WithFlags(s, U16Le(p, at));
      var triggers := if |p| < at + 4 then buttons else WithTriggers(buttons, p[at + 2], p[at + 3]);
      Some(
        if |p| < at + 8 then triggers
        else triggers.(rx := Signed16(U16Le(p, at + 4)), ry := Signed16(U16Le(p, at + 6))))
  }

  function KeyboardCode(key: int, from: nat): (r: Option<int>)
    requires from <= |KEYBOARD_MAP|
    ensures r.Some? ==> exists k :: from <= k < |KEYBOARD_MAP| && KEYBOARD_MAP[k] == (key, r.value)
    decreases |KEYBOARD_MAP| - from
  {
    if from == |KEYBOARD_MAP| then None
    else if KEYBOARD_MAP[from].0 == key then Some(KEYBOARD_MAP[from].1)
    else KeyboardCode(key, from + 1)
  }

  function DecodeKeyboard(s: PadState, p: seq<Byte>, down: bool): Option<PadState> {
    if |p| < 7 then None
    else DecodeVirtualKey(s, U16Le(p, 5) % 0x100, down)
  }

  function DecodeVirtualKey(s: PadState, key: int, down: bool): Option<PadState> {
    var code := KeyboardCode(key, 0);
    if code.Some? then Some(SetKey(s, code.value, down))
    else if key == VK_LEFT then Some(s.(hatX := if down then -1 else 0))
    else if key == VK_RIGHT then Some(s.(hatX := if down then 1 else 0))
    else if key == VK_UP then Some(s.(hatY := if down then -1 else 0))
    else if key == VK_DOWN then Some(s.(hatY := if down then 1 else 0))
    else None
  }

  /** The new state, or None for a packet that is not pad input. */
  function Decode(s: PadState, p: seq<Byte>): Option<PadState> {
    if |p| < 4 then None
    else
      var magic := U32Le(p, 0);
      if magic == KEY_DOWN then DecodeKeyboard(s, p, true)
      else if magic == KEY_UP then DecodeKeyboard(s, p, false)
      else if magic == MULTI && |p| < MULTI_LENGTH then None
      else if magic == MULTI || magic == MULTI_GEN5 then DecodeController(s, p, 12)
      else if magic == CONTROLLER then DecodeController(s, p, 6)
      else None
  }

  /** The running state after a sequence of packets. */
  function Fold(s: PadState, packets: seq<seq<Byte>>): PadState {
    if packets == [] then s
    else
      var t := Fold(s, packets[..|packets| - 1]);
      var u := Decode(t, packets[|packets| - 1]);
      if u.Some? then u.value else t
  }

  ghost predicate Reachable(s: PadState) {
    exists packets :: Fold(NEUTRAL, packets) == s
  }

  // ---------------------------------------------------------------- key by key

  /** The entry of the first n that drives the key at index i. */
  function ButtonFor(i: nat, n: nat): (r: Option<nat>)
    requires i < |KEYS| && n <= |BUTTON_MAP|
    ensures r.Some? ==> r.value < n && BUTTON_MAP[r.value].1 == KEYS[i]
    ensures r.None? ==> forall k | 0 <= k < n :: BUTTON_MAP[k].1 != KEYS[i]
  {
    if n == 0 then None
    else if BUTTON_MAP[n - 1].1 == KEYS[i] then Some(n - 1)
    else ButtonFor(i, n - 1)
  }

  /** Some packet can press this key. */
  predicate Mapped(i: nat)
    requires i < |KEYS|
  {
    KEYS[i] == BTN_TL2 || ButtonFor(i, |BUTTON_MAP|).Some?
  }

  /** What a controller packet's buttons and left trigger say about a key. */
  predicate Wanted(flags: nat, left: Byte, i: nat)
    requires i < |KEYS|
  {
    var b := ButtonFor(i, |BUTTON_MAP|);
    if b.Some? then HasFlag(flags, BUTTON_MAP[b.value].0) else KEYS[i] == BTN_TL2 && left > 127
  }

  lemma KeyIndexExactly(code: int, i: nat)
    requires i < |KEYS|
    ensures KeyIndex(code) == Some(i) <==> KEYS[i] == code
  {
    if KEYS[i] == code {
      IndexOfKey(i);
    }
  }

  /** Each entry drives its own key; every other key is left alone. */
  lemma {:induction false} ButtonsBit(s: PadState, flags: nat, n: nat, i: nat)
    requires n <= |BUTTON_MAP| && i < |KEYS|
    ensures KeyDown(WithButtons(s, flags, n), i)
         == var b := ButtonFor(i, n); if b.Some? then HasFlag(flags, BUTTON_MAP[b.value].0) else KeyDown(s, i)
    decreases n
  {
    hide KeyDown, SetKey, HasFlag, KeyIndex;
    if n > 0 {
      ButtonsBit(s, flags, n - 1, i);
      SetKeyBit(WithButtons(s, flags, n - 1), BUTTON_MAP[n - 1].1, HasFlag(flags, BUTTON_MAP[n - 1].0), i);
      KeyIndexExactly(BUTTON_MAP[n - 1].1, i);
    }
  }

  lemma {:induction false} ButtonsFrame(s: PadState, flags: nat, n: nat)
    requires n <= |BUTTON_MAP|
    ensures WithButtons(s, flags, n) == s.(keys := WithButtons(s, flags, n).keys)
    ensures Normal(s) ==> Normal(WithButtons(s, flags, n))
    decreases n
  {
    hide Normal, HasFlag;
    if n > 0 {
      ButtonsFrame(s, flags, n - 1);
      if Normal(s) {
        SetKeyNormal(WithButtons(s, flags, n - 1), BUTTON_MAP[n - 1].1, HasFlag(flags, BUTTON_MAP[n - 1].0));
      }
    }
  }

  // ---------------------------------------------------------------- invariant

  /** Only keys some packet can press are ever down, and every axis is in its range. */
  predicate PadInv(s: PadState) {
    Normal(s) && InRange(s) && forall i: nat | i < |KEYS| :: KeyDown(s, i) ==> Mapped(i)
  }

  lemma FlagsKeepInv(s: PadState, flags: nat)
    requires PadInv(s)
    ensures PadInv(WithFlags(s, flags))
  {
    hide Normal, KeyDown, HasFlag, ButtonFor;
    ButtonsFrame(s, flags, |BUTTON_MAP|);
    var t := WithButtons(s, flags, |BUTTON_MAP|);
    OnlyKeysMatter(t, WithFlags(s, flags));
    forall i: nat | i < |KEYS| ensures KeyDown(WithFlags(s, flags), i) ==> Mapped(i) {
      ButtonsBit(s, flags, |BUTTON_MAP|, i);
      assert KeyDown(t, i) == KeyDown(WithFlags(s, flags), i);
    }
  }

  lemma OnlyKeysMatter(s: PadState, t: PadState)
    requires s.keys == t.keys
    ensures Normal(s) == Normal(t) && forall i: nat | i < |KEYS| :: KeyDown(s, i) == KeyDown(t, i)
  {
  }

  lemma SetKeyKeepsInv(s: PadState, code: int, down: bool)
    requires PadInv(s)
    requires forall i: nat | i < |KEYS| && KEYS[i] == code :: Mapped(i)
    ensures PadInv(SetKey(s, code, down))
  {
    hide Normal, KeyDown, Mapped;
    SetKeyNormal(s, code, down);
    forall i: nat | i < |KEYS| ensures KeyDown(SetKey(s, code, down), i) ==> Mapped(i) {
      SetKeyBit(s, code, down, i);
      KeyIndexExactly(code, i);
    }
  }

  lemma KeyboardCodesMapped(key: int)
    requires KeyboardCode(key, 0).Some?
    ensures forall i: nat | i < |KEYS| && KEYS[i] == KeyboardCode(key, 0).value :: Mapped(i)
  {
    var k :| 0 <= k < |KEYBOARD_MAP| && KEYBOARD_MAP[k] == (key, KeyboardCode(key, 0).value);
    var m := [0, 1, 2, 3, 4, 5, 7, 6, 8][k];
    assert BUTTON_MAP[m].1 == KEYBOARD_MAP[k].1;
  }

  lemma TriggersKeepInv(s: PadState, left: Byte, right: Byte)
    requires PadInv(s)
    ensures PadInv(WithTriggers(s, left, right))
  {
    var t := SetKey(s, BTN_TL2, left > 127);
    SetKeyKeepsInv(s, BTN_TL2, left > 127);
    OnlyKeysMatter(t, WithTriggers(s, left, right));
    hide Normal, KeyDown, Mapped;
    assert forall i: nat | i < |KEYS| :: KeyDown(t, i) == KeyDown(WithTriggers(s, left, right), i);
  }

  lemma ControllerKeepsInv(s: PadState, p: seq<Byte>, at: nat)
    requires PadInv(s) && DecodeController(s, p, at).Some?
    ensures PadInv(DecodeController(s, p, at).value)
  {
    hide Normal, KeyDown, Mapped, WithFlags, WithTriggers;
    var buttons := WithFlags(s, U16Le(p, at));
    FlagsKeepInv(s, U16Le(p, at));
    var triggers := if |p| < at + 4 then buttons else WithTriggers(buttons, p[at + 2], p[at + 3]);
    if |p| >= at + 4 {
      TriggersKeepInv(buttons, p[at + 2], p[at + 3]);
    }
    OnlyKeysMatter(triggers, DecodeController(s, p, at).value);
    assert forall i: nat | i < |KEYS| :: KeyDown(triggers, i) == KeyDown(DecodeController(s, p, at).value, i);
  }

  lemma VirtualKeyKeepsInv(s: PadState, key: int, down: bool)
    requires PadInv(s) && DecodeVirtualKey(s, key, down).Some?
    ensures PadInv(DecodeVirtualKey(s, key, down).value)
  {
    var code, t := KeyboardCode(key, 0), DecodeVirtualKey(s, key, down).value;
    hide Normal, KeyDown, Mapped, KeyboardCode;
    if code.Some? {
      KeyboardCodesMapped(key);
      SetKeyKeepsInv(s, code.value, down);
    } else {
      OnlyKeysMatter(s, t);
      assert forall i: nat | i < |KEYS| :: KeyDown(s, i) == KeyDown(t, i);
    }
  }

  /** No packet, however malformed, takes the pad out of its ranges or presses a key the
      tables do not name. */
  lemma DecodeKeepsInv(s: PadState, p: seq<Byte>)
    requires PadInv(s) && Decode(s, p).Some?
    ensures PadInv(Decode(s, p).value)
  {
    hide PadInv, DecodeController, DecodeVirtualKey;
    var magic := U32Le(p, 0);
    if magic == KEY_DOWN || magic == KEY_UP {
      VirtualKeyKeepsInv(s, U16Le(p, 5) % 0x100, magic == KEY_DOWN);
    } else {
      ControllerKeepsInv(s, p, if magic == CONTROLLER then 6 else 12);
    }
  }

  lemma {:induction false} FoldInv(s: PadState, packets: seq<seq<Byte>>)
    requires PadInv(s)
    ensures PadInv(Fold(s, packets))
  {
    hide PadInv, Decode;
    if packets != [] {
      var front, p := packets[..|packets| - 1], packets[|packets| - 1];
      FoldInv(s, front);
      if Decode(Fold(s, front), p).Some? {
        DecodeKeepsInv(Fold(s, front), p);
      }
    }
  }

  lemma NeutralInv()
    ensures PadInv(NEUTRAL)
  {
    NeutralNormal();
    forall i: nat | i < |KEYS| ensures !KeyDown(NEUTRAL, i) {
      assert !Has(0, Mask(i));
    }
  }

  lemma ReachableInv(s: PadState)
    requires Reachable(s)
    ensures PadInv(s)
  {
    var packets :| Fold(NEUTRAL, packets) == s;
    NeutralInv();
    FoldInv(NEUTRAL, packets);
  }

  // ---------------------------------------------------------------- a packet alone decides

  /** Where a controller packet has its buttons. */
  function ButtonsAt(p: seq<Byte>): Option<nat> {
    if |p| < 4 then None
    else if U32Le(p, 0) == CONTROLLER then Some(6)
    else if U32Le(p, 0) == MULTI_GEN5 || (U32Le(p, 0) == MULTI && |p| >= MULTI_LENGTH) then Some(12)
    else None
  }

  /** A controller packet long enough to hold both sticks. */
  predicate FullController(p: seq<Byte>) {
    ButtonsAt(p).Some? && |p| >= ButtonsAt(p).value + 8
  }

  /** The pad is what the packet's fields say, key by key and axis by axis. */
  predicate Meets(s: PadState, flags: nat, left: Byte, right: Byte, x: int, y: int) {
    && (forall i: nat | i < |KEYS| :: KeyDown(s, i) == Wanted(flags, left, i))
    && s.hatX == Hat(HasFlag(flags, LEFT), HasFlag(flags, RIGHT))
    && s.hatY == Hat(HasFlag(flags, UP), HasFlag(flags, DOWN))
    && s.rz == right as int && s.rx == x && s.ry == y
  }

  /** Whatever was held before, the keys after the buttons and triggers are the wanted ones. */
  lemma KeysWanted(s: PadState, flags: nat, left: Byte, right: Byte, i: nat)
    requires PadInv(s) && i < |KEYS|
    ensures KeyDown(WithTriggers(WithFlags(s, flags), left, right), i) == Wanted(flags, left, i)
  {
    var buttons := WithButtons(s, flags, |BUTTON_MAP|);
    ButtonsBit(s, flags, |BUTTON_MAP|, i);
    OnlyKeysMatter(buttons, WithFlags(s, flags));
    SetKeyBit(WithFlags(s, flags), BTN_TL2, left > 127, i);
    KeyIndexExactly(BTN_TL2, i);
    OnlyKeysMatter(SetKey(WithFlags(s, flags), BTN_TL2, left > 127), WithTriggers(WithFlags(s, flags), left, right));
    hide Normal, KeyDown, HasFlag, ButtonFor, SetKey, WithButtons, KeyIndex;
    assert KeyDown(buttons, i) == KeyDown(WithFlags(s, flags), i);
    if KEYS[i] == BTN_TL2 {
      NoButtonForTrigger(i);
    }
  }

  lemma NoButtonForTrigger(i: nat)
    requires i < |KEYS| && KEYS[i] == BTN_TL2
    ensures ButtonFor(i, |BUTTON_MAP|).None?
  {
    forall k | 0 <= k < |BUTTON_MAP| ensures BUTTON_MAP[k].1 != BTN_TL2 {
    }
  }

  lemma FullPacketMeets(s: PadState, p: seq<Byte>)
    requires PadInv(s) && FullController(p)
    ensures Decode(s, p).Some?
    ensures var at := ButtonsAt(p).value;
            Meets(Decode(s, p).value, U16Le(p, at), p[at + 2], p[at + 3],
                  Signed16(U16Le(p, at + 4)), Signed16(U16Le(p, at + 6)))
  {
    var at := ButtonsAt(p).value;
    var t := WithTriggers(WithFlags(s, U16Le(p, at)), p[at + 2], p[at + 3]);
    hide PadInv, KeyDown, Wanted, WithButtons, SetKey, HasFlag;
    OnlyKeysMatter(t, Decode(s, p).value);
    forall i: nat | i < |KEYS| ensures KeyDown(Decode(s, p).value, i) == Wanted(U16Le(p, at), p[at + 2], i) {
      KeysWanted(s, U16Le(p, at), p[at + 2], p[at + 3], i);
      assert KeyDown(t, i) == KeyDown(Decode(s, p).value, i);
    }
  }

  lemma MeetsDecides(s: PadState, t: PadState, flags: nat, left: Byte, right: Byte, x: int, y: int)
    requires Normal(s) && Normal(t)
    requires Meets(s, flags, left, right, x, y) && Meets(t, flags, left, right, x, y)
    ensures s == t
  {
    hide Normal, KeyDown, Wanted, HasFlag;
    KeysDecide(s, t);
  }

  lemma FullPacketDecides(s: PadState, t: PadState, p: seq<Byte>)
    requires PadInv(s) && PadInv(t) && FullController(p)
    ensures Decode(s, p).Some? && Decode(s, p) == Decode(t, p)
  {
    hide Decode, Meets, Normal, KeyDown;
    var at := ButtonsAt(p).value;
    FullPacketMeets(s, p);
    FullPacketMeets(t, p);
    DecodeKeepsInv(s, p);
    DecodeKeepsInv(t, p);
    MeetsDecides(Decode(s, p).value, Decode(t, p).value, U16Le(p, at), p[at + 2], p[at + 3],
                 Signed16(U16Le(p, at + 4)), Signed16(U16Le(p, at + 6)));
  }

  /** A keyboard packet, or a controller packet cut before the sticks, keeps the sticks. */
  lemma PartialKeepsStick(s: PadState, p: seq<Byte>)
    requires !FullController(p) && Decode(s, p).Some?
    ensures Decode(s, p).value.rx == s.rx
  {
    hide Normal, KeyDown, HasFlag, KeyboardCode;
    var at := ButtonsAt(p);
    if at.Some? {
      ButtonsFrame(s, U16Le(p, at.value), |BUTTON_MAP|);
    }
  }

  /** A full packet that leaves the right stick off centre. */
  function StickPacket(): (p: seq<Byte>)
    ensures |p| == 20 && U32Le(p, 0) == MULTI_GEN5 && FullController(p)
  {
    [0xC, 0, 0, 0, 0, 0, 0, 0, 0, 0, 0, 0, 0, 0, 0, 0, 1, 0, 0, 0]
  }

  lemma StickState() returns (s: PadState)
    ensures Reachable(s) && s.rx == 1
  {
    NeutralInv();
    var p := StickPacket();
    FullPacketMeets(NEUTRAL, p);
    hide Decode;
    s := Decode(NEUTRAL, p).value;
    var none: seq<seq<Byte>> := [];
    assert [p][..0] == none;
    assert Fold(NEUTRAL, []) == NEUTRAL;
    assert Fold(NEUTRAL, [p]) == s;
  }

  /** An accepted packet's result depends on the packet alone exactly when it is a
      controller packet that reaches the sticks. */
  lemma HistoryIndependence(p: seq<Byte>)
    requires Decode(NEUTRAL, p).Some?
    ensures FullController(p)
       <==> forall s, t | Reachable(s) && Reachable(t) :: Decode(s, p) == Decode(t, p)
  {
    hide Decode;
    if FullController(p) {
      forall s, t | Reachable(s) && Reachable(t) ensures Decode(s, p) == Decode(t, p) {
        ReachableInv(s);
        ReachableInv(t);
        FullPacketDecides(s, t, p);
      }
    } else {
      var s := StickState();
      assert Fold(NEUTRAL, []) == NEUTRAL;
      AcceptedAlone(NEUTRAL, s, p);
      PartialKeepsStick(NEUTRAL, p);
      PartialKeepsStick(s, p);
      assert Reachable(NEUTRAL) && Decode(s, p) != Decode(NEUTRAL, p);
    }
  }

  /** Whether a packet is pad input does not depend on the state. */
  lemma AcceptedAlone(s: PadState, t: PadState, p: seq<Byte>)
    ensures Decode(s, p).Some? <==> Decode(t, p).Some?
  {
  }

  // ---------------------------------------------------------------- printing a packet

  function PutU16Le(n: nat): (d: seq<Byte>)
    requires n < U16_LIMIT
    ensures |d| == 2 && U16Le(d, 0) == n
  {
    [n % 0x100, n / 0x100]
  }

  function Unsigned16(n: int): (x: nat)
    requires -32768 <= n <= 32767
    ensures x < U16_LIMIT && Signed16(x) == n
  {
    if n < 0 then n + 0x1_0000 else n
  }

  /** NV_MULTI_CONTROLLER_PACKET as a client lays it out; `middle` is header, controller
      number, active mask and the second header, `sticks` the right stick. */
  function PrintMulti(middle: seq<Byte>, flags: nat, left: Byte, right: Byte, x: int, y: int, tail: seq<Byte>): seq<Byte>
    requires |middle| == 8 && |tail| == 4
    requires flags < U16_LIMIT && -32768 <= x <= 32767 && -32768 <= y <= 32767
  {
    [0xD, 0, 0, 0] + middle + PutU16Le(flags) + [left, right] + PutU16Le(Unsigned16(x)) + PutU16Le(Unsigned16(y)) + tail
  }

  /** A printed packet decodes to what was printed, from any state the pad can be in. */
  lemma PacketRoundTrip(
      s: PadState, middle: seq<Byte>, flags: nat, left: Byte, right: Byte, x: int, y: int, tail: seq<Byte>)
    requires Reachable(s) && |middle| == 8 && |tail| == 4
    requires flags < U16_LIMIT && -32768 <= x <= 32767 && -32768 <= y <= 32767
    ensures var r := Decode(s, PrintMulti(middle, flags, left, right, x, y, tail));
            r.Some? && Meets(r.value, flags, left, right, x, y)
  {
    hide Decode, Meets;
    var p := PrintMulti(middle, flags, left, right, x, y, tail);
    ReachableInv(s);
    assert U32Le(p, 0) == MULTI;
    assert p[12..14] == PutU16Le(flags) && p[16..18] == PutU16Le(Unsigned16(x)) && p[18..20] == PutU16Le(Unsigned16(y));
    assert U16Le(p, 12) == flags && U16Le(p, 16) == Unsigned16(x) && U16Le(p, 18) == Unsigned16(y);
    FullPacketMeets(s, p);
  }

  /** Exactly which packets are pad input, by their bytes: a key the tables name, or a
      controller packet that reaches its buttons, the third kind only at full length. */
  lemma AcceptedExactly(s: PadState, p: seq<Byte>)
    ensures Decode(s, p).Some?
       <==> |p| >= 4 && p[1] == 0 && p[2] == 0 && p[3] == 0
            && ((p[0] in {3, 4} && |p| >= 7 && p[5] in {0x5A, 0x58, 0x41, 0x53, 0x51, 0x57, 0x0D, 0x08, 0x1B,
                                                        0x25, 0x26, 0x27, 0x28})
                || (p[0] == 0xA && |p| >= 8) || (p[0] == 0xC && |p| >= 14) || (p[0] == 0xD && |p| >= 24))
  {
    hide WithFlags, WithTriggers, SetKey, KeyboardCode;
    if |p| >= 4 {
      assert U32Le(p, 0) == p[0] as int <==> p[1] == 0 && p[2] == 0 && p[3] == 0;
      if |p| >= 7 {
        assert U16Le(p, 5) % 0x100 == p[5] as int;
        NamedLetters(p[5]);
      }
    }
  }

  lemma NamedLetters(key: int)
    ensures KeyboardCode(key, 0).Some? <==> key in {0x5A, 0x58, 0x41, 0x53, 0x51, 0x57, 0x0D, 0x08, 0x1B}
  {
    var keys := [0x5A, 0x58, 0x41, 0x53, 0x51, 0x57, 0x0D, 0x08, 0x1B];
    if k: nat :| k < 9 && keys[k] == key {
      KeyFound(key, 0, k);
    }
    if KeyboardCode(key, 0).Some? {
      var m :| 0 <= m < |KEYBOARD_MAP| && KEYBOARD_MAP[m] == (key, KeyboardCode(key, 0).value);
    } else {
      assert key != keys[0] && key != keys[1] && key != keys[2] && key != keys[3] && key != keys[4];
      assert key != keys[5] && key != keys[6] && key != keys[7] && key != keys[8];
    }
  }

  /** A controller packet cut short leaves what it does not reach: the stick, and, cut before
      the triggers, these and their key too. */
  lemma CutPacketKeeps(s: PadState, p: seq<Byte>, at: nat)
    requires DecodeController(s, p, at).Some? && |p| < at + 8
    ensures var t := DecodeController(s, p, at).value;
            && t.rx == s.rx && t.ry == s.ry
            && (if |p| < at + 4 then t.rz == s.rz && KeyDown(t, 11) == KeyDown(s, 11)
                else t.rz == p[at + 3] as int && (KeyDown(t, 11) <==> p[at + 2] > 127))
  {
    var flags := U16Le(p, at);
    var buttons := WithButtons(s, flags, |BUTTON_MAP|);
    ButtonsFrame(s, flags, |BUTTON_MAP|);
    ButtonsBit(s, flags, |BUTTON_MAP|, 11);
    NoButtonForTrigger(11);
    OnlyKeysMatter(buttons, WithFlags(s, flags));
    KeyIndexExactly(BTN_TL2, 11);
    if |p| >= at + 4 {
      SetKeyBit(WithFlags(s, flags), BTN_TL2, p[at + 2] > 127, 11);
    }
    hide Normal, WithButtons, SetKey, HasFlag, KeyIndex, ButtonFor;
    assert KeyDown(buttons, 11) == KeyDown(WithFlags(s, flags), 11);
  }

  // ---------------------------------------------------------------- from the wire to the device

  /** Bit of value v. */
  predicate Bit(b: Byte, v: nat)
    requires v > 0
  {
    b / v % 2 == 1
  }

  /** A little-endian 16-bit two's complement number. */
  function TwosComplement(lo: Byte, hi: Byte): int {
    lo as int + 256 * if hi < 128 then hi as int else hi as int - 256
  }

  /** Pressed towards its high end, its low end, or neither. */
  function Tilt(low: bool, high: bool): int {
    (if high then 1 else 0) - (if low then 1 else 0)
  }

  /** What a controller packet says of an evdev key code: the face buttons, shoulders and
      mode in the high flag byte, start and select in the low one, the left trigger. */
  predicate PacketPresses(code: int, low: Byte, high: Byte, left: Byte) {
    if code == 304 then Bit(high, 0x10)
    else if code == 305 then Bit(high, 0x20)
    else if code == 307 then Bit(high, 0x40)
    else if code == 308 then Bit(high, 0x80)
    else if code == 310 then Bit(high, 0x01)
    else if code == 311 then Bit(high, 0x02)
    else if code == 354 then Bit(high, 0x04)
    else if code == 314 then Bit(low, 0x20)
    else if code == 315 then Bit(low, 0x10)
    else code == 312 && left > 127
  }

  /** The device shows the packet: flags, triggers and right stick from `at` on. */
  ghost predicate ShowsPacket(events: seq<Event>, p: seq<Byte>, at: nat)
    requires at + 8 <= |p|
  {
    && ShowsAxes(events, Tilt(Bit(p[at], 4), Bit(p[at], 8)), Tilt(Bit(p[at], 1), Bit(p[at], 2)),
                 TwosComplement(p[at + 4], p[at + 5]), TwosComplement(p[at + 6], p[at + 7]), p[at + 3] as int)
    && forall code: int ::
         Replay(events, Key(code, 0)) == if PacketPresses(code, p[at], p[at + 1], p[at + 2]) then 1 else 0
  }

  /** A controller packet that holds both sticks, by its bytes. */
  predicate Controller(p: seq<Byte>, at: nat) {
    && at + 8 <= |p| && p[1] == 0 && p[2] == 0 && p[3] == 0
    && ((p[0] == 0xA && at == 6) || (p[0] == 0xC && at == 12) || (p[0] == 0xD && at == 12 && |p| >= 24))
  }

  /** End to end: when the last packet fed is a whole controller packet, a device in sync
      shows its fields, whatever came before. */
  lemma DeviceShowsPacket(events: seq<Event>, packets: seq<seq<Byte>>, p: seq<Byte>, at: nat)
    requires Controller(p, at) && InSync(events, Fold(NEUTRAL, packets + [p]))
    ensures ShowsPacket(events, p, at)
  {
    hide Decode, PadInv, InSync, Meets, Replay;
    var s := Fold(NEUTRAL, packets);
    assert (packets + [p])[..|packets|] == packets;
    NeutralInv();
    FoldInv(NEUTRAL, packets);
    assert U32Le(p, 0) == p[0] as int;
    FullPacketMeets(s, p);
    MeetsShows(events, Decode(s, p).value, p, at);
  }

  lemma MeetsShows(events: seq<Event>, s: PadState, p: seq<Byte>, at: nat)
    requires at + 8 <= |p| && InSync(events, s)
    requires Meets(s, U16Le(p, at), p[at + 2], p[at + 3], Signed16(U16Le(p, at + 4)), Signed16(U16Le(p, at + 6)))
    ensures ShowsPacket(events, p, at)
  {
    DeviceShows(events, s);
    hide Meets, Replay, ShowsKeys, InSync;
    PacketAxes(s, p, at);
    forall code: int
      ensures Replay(events, Key(code, 0)) == if PacketPresses(code, p[at], p[at + 1], p[at + 2]) then 1 else 0
    {
      InSyncAt(events, s, Key(code, 0));
      PacketKey(s, p, at, code);
    }
  }

  lemma PacketAxes(s: PadState, p: seq<Byte>, at: nat)
    requires at + 8 <= |p|
    requires Meets(s, U16Le(p, at), p[at + 2], p[at + 3], Signed16(U16Le(p, at + 4)), Signed16(U16Le(p, at + 6)))
    ensures s.hatX == Tilt(Bit(p[at], 4), Bit(p[at], 8)) && s.hatY == Tilt(Bit(p[at], 1), Bit(p[at], 2))
    ensures s.rx == TwosComplement(p[at + 4], p[at + 5]) && s.ry == TwosComplement(p[at + 6], p[at + 7])
    ensures s.rz == p[at + 3] as int
  {
    FlagsAreBits(p[at], p[at + 1]);
    hide HasFlag, Bit, Wanted, KeyDown;
  }

  lemma PacketKey(s: PadState, p: seq<Byte>, at: nat, code: int)
    requires at + 8 <= |p|
    requires Meets(s, U16Le(p, at), p[at + 2], p[at + 3], Signed16(U16Le(p, at + 4)), Signed16(U16Le(p, at + 6)))
    ensures Shows(s, Key(code, 0)) == if PacketPresses(code, p[at], p[at + 1], p[at + 2]) then 1 else 0
  {
    WantedIsPressed(code, p[at], p[at + 1], p[at + 2]);
    hide HasFlag, KeyDown, Wanted, PacketPresses, KeyIndex;
  }

  /** The flags of a packet are the bits of its two bytes. */
  lemma FlagsAreBits(low: Byte, high: Byte)
    ensures var flags := low as int + high as int * 0x100;
            && HasFlag(flags, 1) == Bit(low, 1) && HasFlag(flags, 2) == Bit(low, 2)
            && HasFlag(flags, 4) == Bit(low, 4) && HasFlag(flags, 8) == Bit(low, 8)
            && HasFlag(flags, 0x10) == Bit(low, 0x10) && HasFlag(flags, 0x20) == Bit(low, 0x20)
            && HasFlag(flags, 0x100) == Bit(high, 1) && HasFlag(flags, 0x200) == Bit(high, 2)
            && HasFlag(flags, 0x400) == Bit(high, 4) && HasFlag(flags, 0x1000) == Bit(high, 0x10)
            && HasFlag(flags, 0x2000) == Bit(high, 0x20) && HasFlag(flags, 0x4000) == Bit(high, 0x40)
            && HasFlag(flags, 0x8000) == Bit(high, 0x80)
  {
    LowFlag(low, high, 1, 128);
    LowFlag(low, high, 2, 64);
    LowFlag(low, high, 4, 32);
    LowFlag(low, high, 8, 16);
    LowFlag(low, high, 0x10, 8);
    LowFlag(low, high, 0x20, 4);
    HighFlag(low, high, 1);
    HighFlag(low, high, 2);
    HighFlag(low, high, 4);
    HighFlag(low, high, 0x10);
    HighFlag(low, high, 0x20);
    HighFlag(low, high, 0x40);
    HighFlag(low, high, 0x80);
    hide HasFlag, Bit;
  }

  lemma LowFlag(low: Byte, high: Byte, v: nat, m: nat)
    requires v > 0 && v * (2 * m) == 0x100
    ensures HasFlag(low as int + high as int * 0x100, v) == Bit(low, v)
  {
    var x, q, n := low as int + high as int * 0x100, low as int / v, m * high as int;
    Regroup(v, m, high as int, q);
    assert x == v * (q + 2 * n) + low as int % v;
    DivideIs(x, v, q + 2 * n, low as int % v);
    EvenAside(q, n);
  }

  lemma Regroup(v: nat, m: nat, h: nat, q: nat)
    requires v * (2 * m) == 0x100
    ensures v * (q + 2 * (m * h)) == v * q + h * 0x100
  {
    assert v * (2 * (m * h)) == v * (2 * m) * h;
    assert v * (q + 2 * (m * h)) == v * q + v * (2 * (m * h));
  }

  lemma EvenAside(q: nat, n: nat)
    ensures (q + 2 * n) % 2 == q % 2
  {
  }

  lemma HighFlag(low: Byte, high: Byte, v: nat)
    requires v > 0
    ensures HasFlag(low as int + high as int * 0x100, 0x100 * v) == Bit(high, v)
  {
    var x, q, r := low as int + high as int * 0x100, high as int / v, high as int % v;
    assert x == 0x100 * v * q + (0x100 * r + low as int);
    DivideIs(x, 0x100 * v, q, 0x100 * r + low as int);
  }

  lemma WantedIsPressed(code: int, low: Byte, high: Byte, left: Byte)
    ensures var i := KeyIndex(code);
            PacketPresses(code, low, high, left)
            <==> i.Some? && Wanted(low as int + high as int * 0x100, left, i.value)
  {
    FlagsAreBits(low, high);
    hide HasFlag, Bit;
    if KeyIndex(code).Some? {
      ButtonOf(KeyIndex(code).value);
      hide ButtonFor;
    } else {
      NamedKeys(code);
    }
  }

  /** The map entry of every key that has one. */
  lemma ButtonOf(i: nat)
    requires i < |KEYS|
    ensures var b := ButtonFor(i, |BUTTON_MAP|);
            if b.Some? then BUTTON_MAP[b.value].1 == KEYS[i]
            else KEYS[i] !in {304, 305, 307, 308, 310, 311, 314, 315, 354}
  {
    var b := ButtonFor(i, |BUTTON_MAP|);
    if b.None? {
      forall k | 0 <= k < |BUTTON_MAP| ensures BUTTON_MAP[k].1 != KEYS[i] {
      }
      assert BUTTON_MAP[0].1 != KEYS[i] && BUTTON_MAP[1].1 != KEYS[i] && BUTTON_MAP[2].1 != KEYS[i];
      assert BUTTON_MAP[3].1 != KEYS[i] && BUTTON_MAP[4].1 != KEYS[i] && BUTTON_MAP[5].1 != KEYS[i];
      assert BUTTON_MAP[6].1 != KEYS[i] && BUTTON_MAP[7].1 != KEYS[i] && BUTTON_MAP[8].1 != KEYS[i];
    }
  }

  lemma NamedKeys(code: int)
    requires KeyIndex(code).None?
    ensures code !in {304, 305, 307, 308, 310, 311, 312, 314, 315, 354}
  {
    KeyIndexExactly(code, 3);
    KeyIndexExactly(code, 4);
    KeyIndexExactly(code, 6);
    KeyIndexExactly(code, 7);
    KeyIndexExactly(code, 8);
    KeyIndexExactly(code, 9);
    KeyIndexExactly(code, 11);
    KeyIndexExactly(code, 12);
    KeyIndexExactly(code, 13);
    KeyIndexExactly(code, 14);
  }

  /** Flags put together from distinct powers of two have exactly those. */
  function Together(bits: seq<bool>): nat {
    if bits == [] then 0 else (if bits[0] then 1 else 0) + 2 * Together(bits[1..])
  }

  function Power(i: nat): (v: nat)
    ensures v > 0
  {
    if i == 0 then 1 else 2 * Power(i - 1)
  }

  lemma {:induction false} FlagsTogether(bits: seq<bool>, i: nat)
    requires i < |bits|
    ensures HasFlag(Together(bits), Power(i)) <==> bits[i]
    decreases i
  {
    var rest := Together(bits[1..]);
    if i > 0 {
      FlagsTogether(bits[1..], i - 1);
      HalveBoth(Together(bits), Power(i - 1));
      assert Together(bits) / 2 == rest;
    }
  }

  lemma HalveBoth(x: nat, v: nat)
    requires v > 0
    ensures x / (2 * v) == (x / 2) / v
  {
    var q := (x / 2) / v;
    var r := x / 2 - q * v;
    assert 0 <= r < v;
    assert x == 2 * v * q + (2 * r + x % 2);
    DivideIs(x, 2 * v, q, 2 * r + x % 2);
  }

  lemma DivideIs(x: nat, d: nat, q: nat, r: nat)
    requires d > 0 && x == d * q + r && r < d
    ensures x / d == q
  {
    var k := x / d - q;
    assert d * k == r - x % d;
    if k >= 1 {
      Scale(1, k, d);
    } else if k <= -1 {
      Scale(k, -1, d);
    }
  }

  /** A keyboard packet moves the one key it stands for. */
  lemma DeviceShowsKeyboard(events: seq<Event>, packets: seq<seq<Byte>>, p: seq<Byte>, k: nat)
    requires |p| >= 7 && p[0] in {3, 4} && p[1] == 0 && p[2] == 0 && p[3] == 0 && k < 9
    requires p[5] == [0x5A, 0x58, 0x41, 0x53, 0x51, 0x57, 0x0D, 0x08, 0x1B][k]
    requires InSync(events, Fold(NEUTRAL, packets + [p]))
    ensures Replay(events, Key([304, 305, 307, 308, 310, 311, 315, 314, 354][k], 0)) == if p[0] == 3 then 1 else 0
  {
    var code := [304, 305, 307, 308, 310, 311, 315, 314, 354][k];
    hide InSync, Replay, SetKey;
    var s := Fold(NEUTRAL, packets);
    DecodesToKey(s, p, k);
    assert (packets + [p])[..|packets|] == packets;
    InSyncAt(events, SetKey(s, code, p[0] == 3), Key(code, 0));
    KeyIsSet(s, code, p[0] == 3);
  }

  lemma DecodesToKey(s: PadState, p: seq<Byte>, k: nat)
    requires |p| >= 7 && p[0] in {3, 4} && p[1] == 0 && p[2] == 0 && p[3] == 0 && k < 9
    requires p[5] == [0x5A, 0x58, 0x41, 0x53, 0x51, 0x57, 0x0D, 0x08, 0x1B][k]
    ensures Decode(s, p) == Some(SetKey(s, [304, 305, 307, 308, 310, 311, 315, 314, 354][k], p[0] == 3))
  {
    KeyOf(k);
    assert U32Le(p, 0) == p[0] as int && U16Le(p, 5) % 0x100 == p[5] as int;
    hide SetKey, KeyboardCode;
  }

  lemma KeyIsSet(s: PadState, code: int, down: bool)
    requires code in {304, 305, 307, 308, 310, 311, 314, 315, 354}
    ensures Shows(SetKey(s, code, down), Key(code, 0)) == if down then 1 else 0
  {
    if KeyIndex(code).None? {
      NamedKeys(code);
    }
    SetKeyBit(s, code, down, KeyIndex(code).value);
    hide SetKey, KeyDown, KeyIndex;
  }

  /** An arrow packet moves its hat axis to its own end, or on release to the middle. */
  lemma DeviceShowsArrow(events: seq<Event>, packets: seq<seq<Byte>>, p: seq<Byte>)
    requires |p| >= 7 && p[0] in {3, 4} && p[1] == 0 && p[2] == 0 && p[3] == 0
    requires InSync(events, Fold(NEUTRAL, packets + [p]))
    ensures p[5] == 0x25 ==> Replay(events, Abs(16, 0)) == if p[0] == 3 then -1 else 0
    ensures p[5] == 0x27 ==> Replay(events, Abs(16, 0)) == if p[0] == 3 then 1 else 0
    ensures p[5] == 0x26 ==> Replay(events, Abs(17, 0)) == if p[0] == 3 then -1 else 0
    ensures p[5] == 0x28 ==> Replay(events, Abs(17, 0)) == if p[0] == 3 then 1 else 0
  {
    assert (packets + [p])[..|packets|] == packets;
    hide InSync, Replay;
    InSyncAt(events, Fold(NEUTRAL, packets + [p]), Abs(16, 0));
    InSyncAt(events, Fold(NEUTRAL, packets + [p]), Abs(17, 0));
    assert U32Le(p, 0) == p[0] as int && U16Le(p, 5) % 0x100 == p[5] as int;
    if 0x25 <= p[5] <= 0x28 {
      NoLetters(p[5]);
    }
    hide KeyboardCode;
  }

  lemma NoLetters(key: int)
    requires 0x25 <= key <= 0x28
    ensures KeyboardCode(key, 0).None?
  {
  }

  lemma InSyncAt(events: seq<Event>, s: PadState, of: Event)
    requires InSync(events, s) && !of.Syn?
    ensures Replay(events, of) == Shows(s, of)
  {
  }

  /** Which code a virtual key stands for. */
  lemma KeyOf(k: nat)
    requires k < 9
    ensures KeyboardCode([0x5A, 0x58, 0x41, 0x53, 0x51, 0x57, 0x0D, 0x08, 0x1B][k], 0)
         == Some([304, 305, 307, 308, 310, 311, 315, 314, 354][k])
  {
    var key := KEYBOARD_MAP[k].0;
    KeyFound(key, 0, k);
    var m :| 0 <= m < |KEYBOARD_MAP| && KEYBOARD_MAP[m] == (key, KeyboardCode(key, 0).value);
  }

  lemma {:induction false} KeyFound(key: int, from: nat, k: nat)
    requires from <= k < |KEYBOARD_MAP| && KEYBOARD_MAP[k].0 == key
    ensures KeyboardCode(key, from).Some?
    decreases k - from
  {
    if KEYBOARD_MAP[from].0 != key {
      KeyFound(key, from + 1, k);
    }
  }

  // ---------------------------------------------------------------- arrow keys

  predicate Arrow(key: int) {
    key in {VK_LEFT, VK_RIGHT, VK_UP, VK_DOWN}
  }

  /** Two held flags per axis, cancelling as the controller's do. */
  datatype Held = Held(left: bool, right: bool, up: bool, down: bool)

  predicate HatShows(s: PadState, h: Held) {
    s.hatX == Hat(h.left, h.right) && s.hatY == Hat(h.up, h.down)
  }

  function Press(h: Held, key: int, down: bool): Held
    requires Arrow(key)
  {
    if key == VK_LEFT then h.(left := down)
    else if key == VK_RIGHT then h.(right := down)
    else if key == VK_UP then h.(up := down)
    else h.(down := down)
  }

  predicate OppositeHeld(h: Held, key: int)
    requires Arrow(key)
  {
    if key == VK_LEFT then h.right else if key == VK_RIGHT then h.left else if key == VK_UP then h.down else h.up
  }

  /** The hat follows independently held arrows exactly while no two opposite ones are
      involved: with its opposite held, a press overrides it and a release centres. */
  lemma ArrowsAreNotIndependent(s: PadState, h: Held, key: int, down: bool)
    requires Arrow(key) && HatShows(s, h)
    ensures DecodeVirtualKey(s, key, down).Some?
    ensures HatShows(DecodeVirtualKey(s, key, down).value, Press(h, key, down)) <==> !OppositeHeld(h, key)
  {
    assert KeyboardCode(key, 0).None?;
  }

  // ---------------------------------------------------------------- the input task

  /** Where a failed write stopped: packet `at` took the pad from `last` to `now`, and the
      first m events of that report got out behind `before`. */
  datatype Torn = Torn(at: nat, before: seq<Event>, last: PadState, now: PadState, m: nat)

  ghost predicate TornAt(torn: Torn, packets: seq<seq<Byte>>, emitted: seq<Event>) {
    && torn.at < |packets|
    && torn.last == Fold(NEUTRAL, packets[..torn.at]) && Decode(torn.last, packets[torn.at]) == Some(torn.now)
    && InSync(torn.before, torn.last) && torn.m < |Report(torn.last, torn.now)|
    && emitted == torn.before + Report(torn.last, torn.now)[..torn.m]
  }

  /** `run_input`: one running pad state, updated in place by every packet. */
  class InputTask {
    var state: PadState
    const pad: VirtualPad

    constructor ()
      ensures state == NEUTRAL && fresh(pad) && pad.Valid() && pad.Synced() && pad.last == NEUTRAL && pad.emitted == []
    {
      state := NEUTRAL;
      pad := new VirtualPad.Open();
    }

    method ApplyKeyboard(payload: seq<Byte>, down: bool) returns (handled: bool)
      modifies `state
      ensures handled == DecodeKeyboard(old(state), payload, down).Some?
      ensures state == if handled then DecodeKeyboard(old(state), payload, down).value else old(state)
    {
      if |payload| < 7 {
        return false;
      }
      var key := U16Le(payload, 5) % 0x100;
      for k := 0 to |KEYBOARD_MAP|
        invariant state == old(state) && KeyboardCode(key, 0) == KeyboardCode(key, k)
      {
        if KEYBOARD_MAP[k].0 == key {
          state := SetKey(state, KEYBOARD_MAP[k].1, down);
          return true;
        }
      }
      if key == VK_LEFT {
        state := state.(hatX := if down then -1 else 0);
      } else if key == VK_RIGHT {
        state := state.(hatX := if down then 1 else 0);
      } else if key == VK_UP {
        state := state.(hatY := if down then -1 else 0);
      } else if key == VK_DOWN {
        state := state.(hatY := if down then 1 else 0);
      } else {
        return false;
      }
      return true;
    }

    /** Decode one payload into the running state; a packet that is not pad input leaves it. */
    method ApplyPacket(payload: seq<Byte>) returns (handled: bool)
      modifies `state
      ensures handled == Decode(old(state), payload).Some?
      ensures state == if handled then Decode(old(state), payload).value else old(state)
    {
      hide SetKey, HasFlag, KeyboardCode;
      if |payload| < 4 {
        return false;
      }
      var magic := U32Le(payload, 0);
      if magic == KEY_DOWN {
        handled := ApplyKeyboard(payload, true);
        return;
      } else if magic == KEY_UP {
        handled := ApplyKeyboard(payload, false);
        return;
      }
      if magic == MULTI && |payload| < MULTI_LENGTH {
        return false;
      }
      var at;
      if magic == MULTI || magic == MULTI_GEN5 {
        at := 12;
      } else if magic == CONTROLLER {
        at := 6;
      } else {
        return false;
      }
      if |payload| < at + 2 {
        return false;
      }
      var flags := U16Le(payload, at);
      for k := 0 to |BUTTON_MAP|
        invariant state == WithButtons(old(state), flags, k)
      {
        state := SetKey(state, BUTTON_MAP[k].1, HasFlag(flags, BUTTON_MAP[k].0));
      }
      state := state.(hatX := Hat(HasFlag(flags, LEFT), HasFlag(flags, RIGHT)));
      state := state.(hatY := Hat(HasFlag(flags, UP), HasFlag(flags, DOWN)));
      var after := at + 2;
      if after + 2 <= |payload| {
        state := SetKey(state, BTN_TL2, payload[after] > 127);
        state := state.(rz := payload[after + 1] as int);
      }
      if after + 6 <= |payload| {
        state := state.(rx := Signed16(U16Le(payload, after + 2)));
        state := state.(ry := Signed16(U16Le(payload, after + 4)));
      }
      return true;
    }

    /** The life of a session: feed packets until the channel closes or a write fails, then
        release everything as the pad is dropped. `played` is how many events were out
        before the release. After a failed write the release leaves the device neutral
        exactly when nothing that got out was at rest before. */
    method Run(packets: seq<seq<Byte>>) returns (failed: bool, released: bool, played: nat, ghost torn: Torn)
      requires state == NEUTRAL && pad.Valid() && pad.Synced() && pad.last == NEUTRAL
      modifies this, pad
      ensures pad.Valid() && played <= |pad.emitted| && TrueEdges(pad.emitted[..played])
      ensures !failed ==> state == Fold(NEUTRAL, packets) && InSync(pad.emitted[..played], Fold(NEUTRAL, packets))
      ensures !failed && packets != [] ==>
                var p := packets[|packets| - 1];
                && (Controller(p, 6) ==> ShowsPacket(pad.emitted[..played], p, 6))
                && (Controller(p, 12) ==> ShowsPacket(pad.emitted[..played], p, 12))
      ensures !failed && released ==> InSync(pad.emitted, NEUTRAL) && TrueEdges(pad.emitted)
      ensures failed ==> TornAt(torn, packets, pad.emitted[..played])
      ensures failed && released ==>
                (InSync(pad.emitted, NEUTRAL)
                 <==> forall e | e in Report(torn.last, torn.now)[..torn.m] :: !AtRest(torn.last, e))
    {
      hide Decode, PadInv, InSync, TrueEdges, Report, ShowsPacket, Controller, ShowsAxes, ShowsKeys;
      NeutralInv();
      failed := false;
      torn := Torn(0, [], NEUTRAL, NEUTRAL, 0);
      var k := 0;
      while k < |packets| && !failed
        invariant k <= |packets| && pad.Valid() && PadInv(state) && TrueEdges(pad.emitted)
        invariant !failed ==> state == Fold(NEUTRAL, packets[..k]) && pad.last == state && pad.Synced()
        invariant failed ==> pad.last == torn.last && TornAt(torn, packets, pad.emitted)
        decreases |packets| - k, !failed
      {
        ghost var before := state;
        assert packets[..k + 1][..k] == packets[..k];
        var handled := ApplyPacket(packets[k]);
        if handled {
          DecodeKeepsInv(before, packets[k]);
          InvParts(state);
          ghost var out := pad.emitted;
          var ok, written := pad.Apply(state);
          failed := !ok;
          if failed {
            torn := Torn(k, out, before, state, written);
          }
        }
        k := k + 1;
      }
      assert packets[..|packets|] == packets;
      played := |pad.emitted|;
      ghost var out := pad.emitted;
      if !failed {
        LastPacketShows(out, packets);
      }
      var written;
      released, written := pad.ReleaseAll();
      assert pad.emitted[..played] == out;
      if failed {
        ReleaseAfterPartialWrite(torn.before, torn.last, torn.now, torn.m);
        assert Report(torn.last, NEUTRAL)[..|Report(torn.last, NEUTRAL)|] == Report(torn.last, NEUTRAL);
      }
    }
  }

  lemma LastPacketShows(events: seq<Event>, packets: seq<seq<Byte>>)
    requires InSync(events, Fold(NEUTRAL, packets))
    ensures packets != [] ==>
              var p := packets[|packets| - 1];
              && (Controller(p, 6) ==> ShowsPacket(events, p, 6)) && (Controller(p, 12) ==> ShowsPacket(events, p, 12))
  {
    hide ShowsPacket, InSync, Fold;
    if packets != [] {
      var front, p := packets[..|packets| - 1], packets[|packets| - 1];
      assert front + [p] == packets;
      if Controller(p, 6) {
        DeviceShowsPacket(events, front, p, 6);
      }
      if Controller(p, 12) {
        DeviceShowsPacket(events, front, p, 12);
      }
    }
  }

  lemma InvParts(s: PadState)
    requires PadInv(s)
    ensures Normal(s) && InRange(s)
  {
  }
}
