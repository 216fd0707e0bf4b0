/** Any number of subscribers on one control socket. Each sees the single-subscriber
    machine: a run of all of them, watched through one, is a run of that machine. */
module Subscribers {
  import opened Common
  import opened Freshness
  import opened Notifier

  /** One subscription: where its loop is, its `Notified` future, what it was sent. */
  datatype Sub = Sub(spc: SubscriberPc, sreg: Registration, sent: seq<CastState>, sentAt: seq<nat>)

  /** `shared`'s own subscriber fields are unused; `subs` holds everyone, a client that has
      not connected yet being one that has not stepped. */
  datatype Socket = Socket(shared: State, subs: seq<Sub>)

  const NEW := Sub(SRegister, Unregistered, [], [])

  function SubOf(s: State): Sub {
    Sub(s.spc, s.sreg, s.sent, s.sentAt)
  }

  function With(s: State, sub: Sub): State {
    s.(spc := sub.spc, sreg := sub.sreg, sent := sub.sent, sentAt := sub.sentAt)
  }

  /** The socket as subscriber k sees it. */
  function View(m: Socket, k: nat): State
    requires k < |m.subs|
  {
    With(m.shared, m.subs[k])
  }

  /** A subscriber's own step leaves everybody else alone; any other step is the same one
      for all, so that a notify reaches every waiter at once. */
  datatype Move = One(k: nat, a: Action) | All(a: Action)

  predicate Own(a: Action) {
    a in {Serve, CloseSubscriber}
  }

  function Step(m: Socket, move: Move): Option<Socket> {
    match move
    case One(k, a) =>
      if k >= |m.subs| || !Own(a) then None
      else
        (match Freshness.Step(View(m, k), a)
         case None => None
         case Some(t) => Some(m.(subs := m.subs[k := SubOf(t)])))
    case All(a) =>
      if Own(a) then None
      else
        (match Freshness.Step(m.shared, a)
         case None => None
         case Some(t) =>
           Some(Socket(t,
             seq(|m.subs|, k requires 0 <= k < |m.subs| => m.subs[k].(sreg := Woken(m.subs[k].sreg, m.shared, a))))))
  }

  /** What a shared step does to a waiter on the cast state. */
  function Woken(r: Registration, s: State, a: Action): Registration {
    if a == NotifyCast || (a == Watch && s.wpc in {WNotifyPending, WNotifyPaired}) then Notify(r) else r
  }

  function Exec(m: Socket, moves: seq<Move>): Option<Socket> {
    if moves == [] then Some(m)
    else
      match Exec(m, moves[..|moves| - 1])
      case None => None
      case Some(n) => Step(n, moves[|moves| - 1])
  }

  function Start(n: nat, p: seq<PendingInfo>, q: seq<PairedInfo>): Socket {
    Socket(Freshness.Start(p, q), seq(n, _ => NEW))
  }

  ghost predicate Reachable(m: Socket) {
    exists p: seq<PendingInfo>, q: seq<PairedInfo>, moves: seq<Move> :: Exec(Start(|m.subs|, p, q), moves) == Some(m)
  }

  /** The moves subscriber k takes part in. */
  function Project(moves: seq<Move>, k: nat): seq<Action> {
    if moves == [] then []
    else
      var front, last := Project(moves[..|moves| - 1], k), moves[|moves| - 1];
      if last.All? || last.k == k then front + [last.a] else front
  }

  lemma StepProjects(m: Socket, move: Move, k: nat)
    requires Step(m, move).Some? && k < |m.subs|
    ensures var n := Step(m, move).value;
            && |n.subs| == |m.subs|
            && (if move.All? || move.k == k then Freshness.Step(View(m, k), move.a) == Some(View(n, k))
                else View(n, k) == View(m, k))
  {
    if move.One? {
      OwnStepIsOwn(View(m, move.k), move.a);
    }
  }

  lemma OwnStepIsOwn(s: State, a: Action)
    requires Own(a) && Freshness.Step(s, a).Some?
    ensures With(s, SubOf(Freshness.Step(s, a).value)) == Freshness.Step(s, a).value
  {
  }

  /** The simulation. */
  lemma {:induction false} Projects(m: Socket, moves: seq<Move>, k: nat)
    requires Exec(m, moves).Some? && k < |m.subs|
    ensures |Exec(m, moves).value.subs| == |m.subs|
    ensures Freshness.Exec(View(m, k), Project(moves, k)) == Some(View(Exec(m, moves).value, k))
  {
    hide Step, Freshness.Step, View;
    if moves != [] {
      var front, move := moves[..|moves| - 1], moves[|moves| - 1];
      Projects(m, front, k);
      StepProjects(Exec(m, front).value, move, k);
      var acts := Project(front, k);
      assert (acts + [move.a])[..|acts|] == acts;
    }
  }

  lemma ViewReachable(m: Socket, k: nat)
    requires Reachable(m) && k < |m.subs|
    ensures Freshness.Reachable(View(m, k))
  {
    var p, q, moves :| Exec(Start(|m.subs|, p, q), moves) == Some(m);
    Projects(Start(|m.subs|, p, q), moves, k);
    assert View(Start(|m.subs|, p, q), k) == Freshness.Start(p, q);
  }

  /** No subscriber loses a wakeup to another, and each gets its snapshots in order. */
  lemma NobodyLosesAWakeup(m: Socket, k: nat)
    requires Reachable(m) && k < |m.subs|
    ensures var s := View(m, k);
            && InOrder(s)
            && (s.spc == SParked && s.sreg == Armed && !CastOwed(s) ==>
                  s.sent != [] && s.sent[|s.sent| - 1] == s.cast)
  {
    ViewReachable(m, k);
    SentInOrder(View(m, k));
    if View(m, k).spc == SParked && View(m, k).sreg == Armed && !CastOwed(View(m, k)) {
      NoLostWakeup(View(m, k));
    }
  }

  /** Nothing is left to do: no internal step of anybody is possible. */
  predicate AllStuck(m: Socket) {
    && Step(m, All(NotifyManager)).None? && Step(m, All(NotifyCast)).None? && Step(m, All(Watch)).None?
    && forall k: nat | k < |m.subs| :: Step(m, One(k, Serve)).None?
  }

  /** When nothing is left to do, every subscriber still connected has been sent the
      manager's current lists. */
  lemma EveryoneIsFresh(m: Socket)
    requires Reachable(m) && AllStuck(m)
    ensures forall k: nat | k < |m.subs| && View(m, k).spc != SClosed :: Fresh(View(m, k))
  {
    forall k: nat | k < |m.subs| && View(m, k).spc != SClosed ensures Fresh(View(m, k)) {
      ViewReachable(m, k);
      StuckForOne(m, k);
      hide AllStuck;
      ReachableInv(View(m, k));
      StuckIsQuiescent(View(m, k));
      QuiescentIsFresh(View(m, k));
    }
  }

  lemma StuckForOne(m: Socket, k: nat)
    requires AllStuck(m) && k < |m.subs|
    ensures Stuck(View(m, k))
  {
    assert Step(m, One(k, Serve)).None?;
  }

  predicate AllInternal(moves: seq<Move>) {
    forall j | 0 <= j < |moves| :: Internal(moves[j].a)
  }

  lemma {:induction false} ProjectInternal(moves: seq<Move>, k: nat)
    requires AllInternal(moves)
    ensures forall j | 0 <= j < |Project(moves, k)| :: Internal(Project(moves, k)[j])
  {
    if moves != [] {
      ProjectInternal(moves[..|moves| - 1], k);
    }
  }

  /** Left alone, the socket settles: whatever the others do, only so many steps are ones a
      subscriber takes part in, and they use up its work. */
  lemma SettlesForEach(m: Socket, moves: seq<Move>, k: nat)
    requires Reachable(m) && Exec(m, moves).Some? && AllInternal(moves) && k < |m.subs|
    ensures |Exec(m, moves).value.subs| == |m.subs|
    ensures |Project(moves, k)| + Work(View(Exec(m, moves).value, k)) <= Work(View(m, k))
  {
    hide Work;
    ViewReachable(m, k);
    Projects(m, moves, k);
    ProjectInternal(moves, k);
    Settles(View(m, k), Project(moves, k));
  }

  function TotalWork(m: Socket, n: nat): nat
    requires n <= |m.subs|
  {
    if n == 0 then 0 else TotalWork(m, n - 1) + Work(View(m, n - 1))
  }

  /** Moves among the first n subscribers, shared ones included. */
  function Among(moves: seq<Move>, n: nat): nat {
    if moves == [] then 0
    else
      var last := moves[|moves| - 1];
      Among(moves[..|moves| - 1], n) + if last.All? || last.k < n then 1 else 0
  }

  lemma {:induction false} AmongOneMore(moves: seq<Move>, n: nat)
    ensures Among(moves, n + 1) <= Among(moves, n) + |Project(moves, n)|
  {
    if moves != [] {
      AmongOneMore(moves[..|moves| - 1], n);
    }
  }

  lemma {:induction false} OnlyShared(moves: seq<Move>)
    ensures Among(moves, 1) == |Project(moves, 0)|
  {
    if moves != [] {
      OnlyShared(moves[..|moves| - 1]);
    }
  }

  lemma {:induction false} AmongAll(m: Socket, moves: seq<Move>)
    requires Exec(m, moves).Some?
    ensures Among(moves, |m.subs|) == |moves|
    ensures |Exec(m, moves).value.subs| == |m.subs|
  {
    hide Freshness.Step, View;
    if moves != [] {
      AmongAll(m, moves[..|moves| - 1]);
    }
  }

  /** Together: the socket takes no more internal steps than the work its subscribers see. */
  lemma Settling(m: Socket, moves: seq<Move>)
    requires Reachable(m) && Exec(m, moves).Some? && AllInternal(moves) && m.subs != []
    ensures |moves| <= TotalWork(m, |m.subs|)
  {
    AmongAll(m, moves);
    AmongBounded(m, moves, |m.subs|);
  }

  lemma {:induction false} AmongBounded(m: Socket, moves: seq<Move>, n: nat)
    requires Reachable(m) && Exec(m, moves).Some? && AllInternal(moves) && 0 < n <= |m.subs|
    ensures Among(moves, n) <= TotalWork(m, n)
    decreases n
  {
    hide Work, Exec, Among, Project, Reachable;
    SettlesForEach(m, moves, n - 1);
    if n == 1 {
      OnlyShared(moves);
    } else {
      AmongBounded(m, moves, n - 1);
      AmongOneMore(moves, n - 1);
    }
  }
}
