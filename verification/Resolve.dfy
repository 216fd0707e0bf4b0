/** `wait_until_resolved` in `rgsp-host/src/control.rs`: wait for a client id to leave the
    pending set, or for a deadline, against a notifier that stores no permit. */
module Resolve {
  import opened Common
  import opened Notifier

  datatype Pc =
    | Register
    | Check
    | Parked
    | LastRead
    | Done(resolved: bool)

  /** One read of the pending set: what it saw, and when. */
  datatype Read = Read(pending: bool, at: int)

  /** `heard`: the notifier has fired since the id last entered or left the set. */
  datatype State = State(
    pending: bool, heard: bool, now: int, deadline: int, pc: Pc, reg: Registration, seen: seq<Read>)

  datatype Action =
    // any mutation of what the waiter reads, its own id or not; then its notify
    | Mutate(pending: bool)
    | NotifyWaiters
    | Tick(now: int)
    | Wait

  function Start(pending: bool, now: int, timeout: nat): State {
    State(pending, false, now, now + timeout, Register, Unregistered, [])
  }

  function Step(s: State, a: Action): Option<State> {
    match a
    case Mutate(p) => Some(s.(pending := p, heard := s.heard && p == s.pending))
    case NotifyWaiters => Some(s.(heard := true, reg := Notify(s.reg)))
    case Tick(t) => if t < s.now then None else Some(s.(now := t))
    case Wait => WaiterStep(s)
  }

  function ReadNow(s: State): State {
    s.(seen := s.seen + [Read(s.pending, s.now)])
  }

  /** The loop of the source: register, read, park; a fire goes round again, and only the
      deadline, with no fire pending, leads to one last read. */
  function WaiterStep(s: State): Option<State> {
    match s.pc
    case Register => Some(s.(pc := Check, reg := Armed))
    case Check => Some(ReadNow(s).(pc := if s.pending then Parked else Done(true)))
    case Parked =>
      if s.reg == Fired then Some(s.(pc := Register, reg := Unregistered))
      else if s.now >= s.deadline then Some(s.(pc := LastRead))
      else None
    case LastRead => Some(ReadNow(s).(pc := Done(!s.pending)))
    case Done(_) => None
  }

  function Exec(s: State, acts: seq<Action>): Option<State> {
    if acts == [] then Some(s)
    else
      match Exec(s, acts[..|acts| - 1])
      case None => None
      case Some(t) => Step(t, acts[|acts| - 1])
  }

  /** What some interleaving makes of a wait begun at `now`. */
  ghost predicate ReachableFrom(pending: bool, now: int, timeout: nat, s: State) {
    exists acts: seq<Action> :: Exec(Start(pending, now, timeout), acts) == Some(s)
  }

  ghost predicate Reachable(s: State) {
    exists pending: bool, now: int, timeout: nat :: ReachableFrom(pending, now, timeout, s)
  }

  predicate Inv(s: State) {
    && (s.pc in {Check, Parked} ==> s.reg != Unregistered)
    && (s.pc == Parked && s.reg == Armed ==> s.pending || !s.heard)
    && (s.pc == LastRead ==> s.now >= s.deadline)
    && (forall k | 0 <= k < |s.seen| :: s.seen[k].at <= s.now)
    && (match s.pc
        case Done(resolved) =>
          && s.seen != [] && AllPending(s.seen[..|s.seen| - 1])
          && s.seen[|s.seen| - 1].pending == !resolved
          && (!resolved ==> s.seen[|s.seen| - 1].at >= s.deadline)
        case _ => AllPending(s.seen))
  }

  predicate AllPending(seen: seq<Read>) {
    forall k | 0 <= k < |seen| :: seen[k].pending
  }

  lemma InvKept(s: State, a: Action)
    requires Inv(s) && Step(s, a).Some?
    ensures Inv(Step(s, a).value)
  {
    if a == Wait {
      WaiterInvKept(s);
    } else {
      hide WaiterStep;
    }
  }

  lemma WaiterInvKept(s: State)
    requires Inv(s) && WaiterStep(s).Some?
    ensures Inv(WaiterStep(s).value)
  {
    var t := WaiterStep(s).value;
    if t.seen != s.seen {
      assert t.seen[..|t.seen| - 1] == s.seen;
    }
  }

  lemma {:induction false} InvHolds(s: State, acts: seq<Action>)
    requires Inv(s) && Exec(s, acts).Some?
    ensures Inv(Exec(s, acts).value)
  {
    if acts != [] {
      InvHolds(s, acts[..|acts| - 1]);
      InvKept(Exec(s, acts[..|acts| - 1]).value, acts[|acts| - 1]);
    }
  }

  lemma ReachableInv(s: State)
    requires Reachable(s)
    ensures Inv(s)
  {
    var pending, now, timeout :| ReachableFrom(pending, now, timeout, s);
    var acts :| Exec(Start(pending, now, timeout), acts) == Some(s);
    InvHolds(Start(pending, now, timeout), acts);
  }

  /** The answer is what a read saw: true only if one saw the id gone, false only if one
      at or after the deadline still saw it pending; and every read before the last saw
      it pending, so no notify alone ever ends the wait. */
  lemma AnswerIsSound(s: State)
    requires Reachable(s) && s.pc.Done?
    ensures var last := |s.seen| - 1;
            && s.seen != [] && AllPending(s.seen[..last])
            && (s.pc.resolved ==> !s.seen[last].pending)
            && (!s.pc.resolved ==> s.seen[last].pending && s.seen[last].at >= s.deadline)
  {
    ReachableInv(s);
  }

  /** Never parked on an unfired registration once the id is gone and a notify came after. */
  lemma NeverParkedOnGone(s: State)
    requires Reachable(s)
    requires s.pc == Parked && s.reg == Armed && s.heard
    ensures s.pending
  {
    ReachableInv(s);
  }

  /** The waiter's own next `n` steps. */
  function Waits(s: State, n: nat): Option<State>
    decreases n
  {
    if n == 0 then Some(s)
    else
      match WaiterStep(s)
      case None => None
      case Some(t) => Waits(t, n - 1)
  }

  /** And then it answers promptly: with the id gone and the notify done, the waiter is
      never blocked, and answers true within three steps of its own. */
  lemma GoneIsAnswered(s: State)
    requires Reachable(s)
    requires !s.pending && s.heard && !s.pc.Done?
    ensures exists n: nat :: n <= 3 && Waits(s, n).Some? && Waits(s, n).value.pc == Done(true)
  {
    ReachableInv(s);
    match s.pc {
      case Register =>
        Unroll(s, 2);
      case Check =>
        Unroll(s, 1);
      case Parked =>
        Unroll(s, 3);
      case LastRead =>
        Unroll(s, 1);
    }
  }

  lemma Unroll(s: State, n: nat)
    requires 0 < n <= 3 && WaiterStep(s).Some?
    requires n >= 2 ==> WaiterStep(WaiterStep(s).value).Some?
    requires n >= 3 ==> WaiterStep(WaiterStep(WaiterStep(s).value).value).Some?
    ensures Waits(s, n) == if n == 1 then WaiterStep(s)
                           else if n == 2 then WaiterStep(WaiterStep(s).value)
                           else WaiterStep(WaiterStep(WaiterStep(s).value).value)
  {
    var t := WaiterStep(s).value;
    if n >= 2 {
      assert Waits(t, n - 1) == Waits(WaiterStep(t).value, n - 2);
    }
  }

  /** Nor does it outlast the deadline by more than the fires that keep arriving: past
      the deadline with no fire pending, it answers within four steps of its own. */
  lemma DeadlineIsAnswered(s: State)
    requires Reachable(s)
    requires s.now >= s.deadline && !s.pc.Done?
    requires s.reg != Fired
    ensures exists n: nat :: n <= 4 && Waits(s, n).Some? && Waits(s, n).value.pc == Done(!s.pending)
  {
    ReachableInv(s);
    match s.pc {
      case Parked =>
        Unroll(s, 2);
      case LastRead =>
        Unroll(s, 1);
      case Check =>
        if s.pending {
          Unroll(s, 3);
        } else {
          Unroll(s, 1);
        }
      case Register =>
        var t := WaiterStep(s).value;
        if s.pending {
          Unroll(t, 3);
          assert Waits(s, 4) == Waits(t, 3);
        } else {
          Unroll(s, 2);
        }
    }
  }

  // ---------------------------------------------------------------- the loop

  /** What the waiter shares with the world: the pending set, as far as its id goes, the
      clock, and its own `Notified` future, which the notifier fires. */
  class Waiter {
    var pending: bool
    var now: int
    var reg: Registration
    var seen: seq<Read>
    ghost var heard: bool
    ghost var at: State
    ghost var acts: seq<Action>
    ghost var began: State

    ghost predicate At(pc: Pc, deadline: int)
      reads this
    {
      at == State(pending, heard, now, deadline, pc, reg, seen) && Exec(began, acts) == Some(at)
    }

    constructor (pending: bool, now: int)
    {
      this.pending, this.now, reg, seen := pending, now, Unregistered, [];
    }

    ghost method Did(a: Action)
      requires Exec(began, acts) == Some(at) && Step(at, a).Some?
      modifies `at, `acts
      ensures Exec(began, acts) == Some(at) && Some(at) == Step(old(at), a)
    {
      assert (acts + [a])[..|acts|] == acts;
      acts := acts + [a];
      at := Step(at, a).value;
    }

    /** Between two steps: clients come and go, notifies fire, time passes. */
    method Others(ghost pc: Pc, ghost deadline: int)
      requires At(pc, deadline)
      modifies `pending, `now, `reg, `heard, `at, `acts
      ensures At(pc, deadline)
    {
      var n: nat :| n >= 0;
      for k := 0 to n
        invariant At(pc, deadline)
      {
        if * {
          var p: bool := *;
          heard := heard && p == pending;
          pending := p;
          Did(Mutate(p));
        } else if * {
          heard := true;
          reg := Notify(reg);
          Did(NotifyWaiters);
        } else {
          var t :| t >= now;
          now := t;
          Did(Tick(t));
        }
      }
    }

    /** Register before reading; an id that is gone is the answer. */
    method Look(ghost deadline: int) returns (gone: bool)
      requires At(Register, deadline)
      modifies `pending, `now, `reg, `seen, `heard, `at, `acts
      ensures At(if gone then Done(true) else Parked, deadline) && |seen| == |old(seen)| + 1
    {
      Others(Register, deadline);
      reg := Armed;
      Did(Wait);
      Others(Check, deadline);
      seen := seen + [Read(pending, now)];
      Did(Wait);
      gone := !pending;
    }

    /** Await the fire or the deadline; past it, one last read. Blocked when neither. */
    method Park(deadline: int) returns (answer: Option<bool>, blocked: bool)
      requires At(Parked, deadline)
      modifies `pending, `now, `reg, `seen, `heard, `at, `acts
      ensures At(if answer.Some? then Done(answer.value) else if blocked then Parked else Register, deadline)
      ensures answer.None? ==> seen == old(seen) && (blocked ==> reg != Fired && now < deadline)
    {
      Others(Parked, deadline);
      if reg == Fired {
        reg := Unregistered;
        Did(Wait);
        return None, false;
      }
      if now >= deadline {
        Did(Wait);
        Others(LastRead, deadline);
        seen := seen + [Read(pending, now)];
        Did(Wait);
        return Some(!pending), false;
      }
      return None, true;
    }

    /** The loop, watched for `horizon` rounds, a read in each, unless it answers or blocks
        before. It answers as the machine does that waits as long from the same moment: true
        when a read finds the id gone, false only after a read at or past the timeout. */
    method WaitUntilResolved(timeout: nat, horizon: nat) returns (answer: Option<bool>)
      modifies this
      ensures ReachableFrom(old(pending), old(now), timeout, at) && at.seen == seen && at.now == now
      ensures at.deadline == old(now) + timeout
      ensures answer.Some? ==> at.pc == Done(answer.value) && seen != [] && AllPending(seen[..|seen| - 1])
      ensures answer == Some(true) ==> !seen[|seen| - 1].pending
      ensures answer == Some(false) ==> seen[|seen| - 1].pending && seen[|seen| - 1].at >= old(now) + timeout
      ensures answer.None? ==> |seen| == horizon || (at.pc == Parked && at.reg != Fired && now < old(now) + timeout)
    {
      hide Exec, Step;
      var deadline := now + timeout;
      reg, seen, heard := Unregistered, [], false;
      ghost var p, t := pending, now;
      began, acts := Start(p, t, timeout), [];
      at := began;
      NothingYet();
      answer := None;
      var k, blocked := 0, false;
      while k < horizon && answer.None? && !blocked
        invariant At(if answer.Some? then Done(answer.value) else if blocked then Parked else Register, deadline)
        invariant began == Start(p, t, timeout) && k <= horizon
        invariant answer.None? ==> |seen| == k && (blocked ==> reg != Fired && now < deadline)
      {
        var gone := Look(deadline);
        if gone {
          answer := Some(true);
        } else {
          answer, blocked := Park(deadline);
        }
        k := k + 1;
      }
      assert ReachableFrom(p, t, timeout, at);
      ReachableInv(at);
    }

    lemma NothingYet()
      requires acts == [] && at == began
      ensures Exec(began, acts) == Some(at)
    {
    }
  }
}
