/** Change notification from the client manager to a control-socket subscriber:
    `rgsp-host/src/control.rs` and the watcher task in `rgsp-host/src/main.rs`.

    `notify_waiters` stores no permit: it wakes only waiters already registered. The
    actors are interleaved at every point where another may run, and a setter's write
    and its notify are two steps. */
module Freshness {
  import opened Common
  import opened Notifier

  // ---------------------------------------------------------------- the data

  datatype PendingInfo = PendingInfo(id: string, name: Option<string>, address: Option<string>)

  datatype PairedInfo = PairedInfo(fingerprint: string, name: Option<string>, address: Option<string>)

  datatype PendingEntry = PendingEntry(id: string, name: Option<string>, address: Option<string>)

  datatype PairedEntry = PairedEntry(fingerprint: string, name: Option<string>, address: Option<string>)

  datatype CastState = CastState(
    casting: bool, client: Option<string>, pending: seq<PendingEntry>, paired: seq<PairedEntry>)

  /** Every Moonlight client sends this constant as its name. */
  function NormalizeDevicename(name: Option<string>): Option<string> {
    if name == Some("roth") then None else name
  }

  function PendingEntries(clients: seq<PendingInfo>): seq<PendingEntry> {
    seq(|clients|, k requires 0 <= k < |clients| =>
      PendingEntry(clients[k].id, NormalizeDevicename(clients[k].name), clients[k].address))
  }

  function PairedEntries(clients: seq<PairedInfo>): seq<PairedEntry> {
    seq(|clients|, k requires 0 <= k < |clients| =>
      PairedEntry(clients[k].fingerprint, NormalizeDevicename(clients[k].name), clients[k].address))
  }

  // ---------------------------------------------------------------- the actors

  datatype WatcherPc =
    | WRegister
    | WReadPending
    | WWritePending(pending: seq<PendingEntry>)
    | WNotifyPending
    | WReadPaired
    | WWritePaired(paired: seq<PairedEntry>)
    | WNotifyPaired
    | WParked

  datatype SubscriberPc =
    | SRegister
    | SRead
    | SSend(msg: CastState, at: nat)
    | SParked
    | SClosed

  /** `mgrDebt` and `castDebt` count the writers between their write and their notify.
      `history` is every value the cast state has had, `sentAt` how long it was when each
      message was read. */
  datatype State = State(
    pendingClients: seq<PendingInfo>, pairedClients: seq<PairedInfo>, mgrDebt: nat,
    cast: CastState, castDebt: nat,
    wpc: WatcherPc, wreg: Registration,
    spc: SubscriberPc, sreg: Registration,
    sent: seq<CastState>, sentAt: seq<nat>, history: seq<CastState>)

  const EMPTY: CastState := CastState(false, None, [], [])

  /** Startup: nobody registered yet; the manager already holds whatever it loaded. */
  function Start(pendingClients: seq<PendingInfo>, pairedClients: seq<PairedInfo>): State {
    State(pendingClients, pairedClients, 0, EMPTY, 0, WRegister, Unregistered, SRegister, Unregistered, [], [], [EMPTY])
  }

  datatype Action =
    // the outside world
    | Mutate(pendingClients: seq<PendingInfo>, pairedClients: seq<PairedInfo>)
    | SetCasting(casting: bool)
    | SetClient(client: Option<string>)
    | CloseSubscriber
    // what the daemon still owes
    | NotifyManager
    | NotifyCast
    | Watch
    | Serve

  predicate Internal(a: Action) {
    a in {NotifyManager, NotifyCast, Watch, Serve}
  }

  function Write(s: State, cast: CastState): State {
    s.(cast := cast, history := s.history + [cast])
  }

  /** One step of one actor; None when it cannot move. */
  function Step(s: State, a: Action): Option<State> {
    match a
    case Mutate(p, q) => Some(s.(pendingClients := p, pairedClients := q, mgrDebt := s.mgrDebt + 1))
    case SetCasting(c) => Some(Write(s, s.cast.(casting := c)).(castDebt := s.castDebt + 1))
    case SetClient(c) => Some(Write(s, s.cast.(client := c)).(castDebt := s.castDebt + 1))
    case CloseSubscriber => Some(s.(spc := SClosed, sreg := Unregistered))
    case NotifyManager =>
      if s.mgrDebt == 0 then None else Some(s.(mgrDebt := s.mgrDebt - 1, wreg := Notify(s.wreg)))
    case NotifyCast =>
      if s.castDebt == 0 then None else Some(s.(castDebt := s.castDebt - 1, sreg := Notify(s.sreg)))
    case Watch => WatcherStep(s)
    case Serve => SubscriberStep(s)
  }

  /** The watcher task: register, publish both lists, park; woken, register afresh
      before reading anything. */
  function WatcherStep(s: State): Option<State> {
    match s.wpc
    case WRegister => Some(s.(wpc := WReadPending, wreg := Armed))
    case WReadPending => Some(s.(wpc := WWritePending(PendingEntries(s.pendingClients))))
    case WWritePending(v) => Some(Write(s, s.cast.(pending := v)).(wpc := WNotifyPending))
    case WNotifyPending => Some(s.(wpc := WReadPaired, sreg := Notify(s.sreg)))
    case WReadPaired => Some(s.(wpc := WWritePaired(PairedEntries(s.pairedClients))))
    case WWritePaired(v) => Some(Write(s, s.cast.(paired := v)).(wpc := WNotifyPaired))
    case WNotifyPaired => Some(s.(wpc := WParked, sreg := Notify(s.sreg)))
    case WParked => if s.wreg == Fired then Some(s.(wpc := WRegister, wreg := Unregistered)) else None
  }

  /** A subscription: register, snapshot, send, park; woken, register afresh first. */
  function SubscriberStep(s: State): Option<State> {
    match s.spc
    case SRegister => Some(s.(spc := SRead, sreg := Armed))
    case SRead => Some(s.(spc := SSend(s.cast, |s.history|)))
    case SSend(msg, at) => Some(s.(spc := SParked, sent := s.sent + [msg], sentAt := s.sentAt + [at]))
    case SParked => if s.sreg == Fired then Some(s.(spc := SRegister, sreg := Unregistered)) else None
    case SClosed => None
  }

  function Exec(s: State, acts: seq<Action>): Option<State> {
    if acts == [] then Some(s)
    else
      match Exec(s, acts[..|acts| - 1])
      case None => None
      case Some(t) => Step(t, acts[|acts| - 1])
  }

  /** Every state some interleaving reaches. */
  ghost predicate Reachable(s: State) {
    exists p: seq<PendingInfo>, q: seq<PairedInfo>, acts: seq<Action> :: Exec(Start(p, q), acts) == Some(s)
  }

  // ---------------------------------------------------------------- the invariant

  /** A write to the cast state whose notify is still to come. */
  predicate CastOwed(s: State) {
    s.castDebt > 0 || s.wpc in {WNotifyPending, WNotifyPaired}
  }

  /** A registered, unfired subscriber holds, or is sending, the current state, unless a
      notify is still owed that will wake it. */
  predicate SubscriberCurrent(s: State) {
    && (s.spc in {SRead, SParked} || s.spc.SSend? ==> s.sreg != Unregistered)
    && (s.spc == SParked ==> s.sent != [])
    && (s.sreg == Armed && !CastOwed(s) ==>
          && (s.spc.SSend? ==> s.spc.msg == s.cast)
          && (s.spc == SParked ==> s.sent[|s.sent| - 1] == s.cast))
  }

  predicate PendingPublished(s: State) {
    s.cast.pending == PendingEntries(s.pendingClients)
  }

  predicate PairedPublished(s: State) {
    s.cast.paired == PairedEntries(s.pairedClients)
  }

  /** The same for the watcher, list by list, at each of its program points. */
  predicate WatcherCurrent(s: State) {
    && (s.wpc != WRegister ==> s.wreg != Unregistered)
    && (s.wreg == Armed && s.mgrDebt == 0 ==>
          match s.wpc
          case WRegister => true
          case WReadPending => true
          case WWritePending(v) => v == PendingEntries(s.pendingClients)
          case WNotifyPending => PendingPublished(s)
          case WReadPaired => PendingPublished(s)
          case WWritePaired(v) => PendingPublished(s) && v == PairedEntries(s.pairedClients)
          case WNotifyPaired => PendingPublished(s) && PairedPublished(s)
          case WParked => PendingPublished(s) && PairedPublished(s))
  }

  /** `msg` was the state when the history was `at` long. */
  predicate WasState(history: seq<CastState>, msg: CastState, at: nat) {
    0 < at <= |history| && history[at - 1] == msg
  }

  /** The messages sent are values the state has had, in the order it had them. */
  predicate InOrder(s: State) {
    && s.history != [] && s.history[|s.history| - 1] == s.cast
    && |s.sent| == |s.sentAt|
    && (forall k | 0 <= k < |s.sent| :: WasState(s.history, s.sent[k], s.sentAt[k]))
    && (forall j, k | 0 <= j < k < |s.sent| :: s.sentAt[j] <= s.sentAt[k])
    && (s.spc.SSend? ==>
          && WasState(s.history, s.spc.msg, s.spc.at)
          && forall k | 0 <= k < |s.sent| :: s.sentAt[k] <= s.spc.at)
  }

  predicate Inv(s: State) {
    SubscriberCurrent(s) && WatcherCurrent(s) && InOrder(s)
  }

  lemma WatcherCurrentKept(s: State, a: Action)
    requires WatcherCurrent(s) && Step(s, a).Some?
    ensures WatcherCurrent(Step(s, a).value)
  {
  }

  lemma SubscriberCurrentKept(s: State, a: Action)
    requires SubscriberCurrent(s) && Step(s, a).Some?
    ensures SubscriberCurrent(Step(s, a).value)
  {
  }

  lemma InOrderKept(s: State, a: Action)
    requires InOrder(s) && Step(s, a).Some?
    ensures InOrder(Step(s, a).value)
  {
    hide PendingEntries, PairedEntries;
    if a == Serve {
      ServeInOrder(s);
    } else {
      hide SubscriberStep;
    }
  }

  lemma ServeInOrder(s: State)
    requires InOrder(s) && SubscriberStep(s).Some?
    ensures InOrder(SubscriberStep(s).value)
  {
  }

  lemma {:induction false} InvHolds(p: seq<PendingInfo>, q: seq<PairedInfo>, acts: seq<Action>)
    requires Exec(Start(p, q), acts).Some?
    ensures Inv(Exec(Start(p, q), acts).value)
  {
    if acts != [] {
      var front, a := acts[..|acts| - 1], acts[|acts| - 1];
      InvHolds(p, q, front);
      var s := Exec(Start(p, q), front).value;
      assert Exec(Start(p, q), acts) == Step(s, a);
      WatcherCurrentKept(s, a);
      SubscriberCurrentKept(s, a);
      InOrderKept(s, a);
    }
  }

  lemma ReachableInv(s: State)
    requires Reachable(s)
    ensures Inv(s)
  {
    var p, q, acts :| Exec(Start(p, q), acts) == Some(s);
    InvHolds(p, q, acts);
  }

  // ---------------------------------------------------------------- the theorems

  /** No lost wakeup: parked on an unfired registration with no notify owed, a subscriber
      has been sent the current state. */
  lemma NoLostWakeup(s: State)
    requires Reachable(s)
    requires s.spc == SParked && s.sreg == Armed && !CastOwed(s)
    ensures s.sent != [] && s.sent[|s.sent| - 1] == s.cast
  {
    ReachableInv(s);
  }

  /** Snapshots arrive in the order of the state's history. */
  lemma SentInOrder(s: State)
    requires Reachable(s)
    ensures InOrder(s)
  {
    ReachableInv(s);
  }

  /** Watcher and subscriber parked on unfired registrations, and nobody mid-write. */
  predicate Quiescent(s: State) {
    s.mgrDebt == 0 && s.castDebt == 0 && s.wpc == WParked && s.wreg == Armed && s.spc == SParked && s.sreg == Armed
  }

  /** A list sent, against the manager's own records: client by client, each under its id
      or fingerprint, with its address, and its name unless that is the constant. */
  predicate ListsPending(entries: seq<PendingEntry>, clients: seq<PendingInfo>) {
    && |entries| == |clients|
    && forall k | 0 <= k < |clients| ::
         && entries[k].id == clients[k].id && entries[k].address == clients[k].address
         && entries[k].name == if clients[k].name == Some("roth") then None else clients[k].name
  }

  predicate ListsPaired(entries: seq<PairedEntry>, clients: seq<PairedInfo>) {
    && |entries| == |clients|
    && forall k | 0 <= k < |clients| ::
         && entries[k].fingerprint == clients[k].fingerprint && entries[k].address == clients[k].address
         && entries[k].name == if clients[k].name == Some("roth") then None else clients[k].name
  }

  /** The last message sent is the state, and lists the manager's own clients. */
  predicate Fresh(s: State) {
    && s.sent != []
    && var last := s.sent[|s.sent| - 1];
       last == s.cast && ListsPending(last.pending, s.pendingClients) && ListsPaired(last.paired, s.pairedClients)
  }

  lemma EntriesList(p: seq<PendingInfo>, q: seq<PairedInfo>)
    ensures ListsPending(PendingEntries(p), p) && ListsPaired(PairedEntries(q), q)
  {
  }

  /** A watcher parked on an unfired registration, with no mutation still to be notified,
      has published the manager's lists. */
  lemma ParkedHasPublished(s: State)
    requires Reachable(s) && s.wpc == WParked && s.wreg == Armed && s.mgrDebt == 0
    ensures ListsPending(s.cast.pending, s.pendingClients) && ListsPaired(s.cast.paired, s.pairedClients)
  {
    ReachableInv(s);
    EntriesList(s.pendingClients, s.pairedClients);
  }

  /** What the setters last said. */
  function LastCasting(acts: seq<Action>): bool {
    if acts == [] then false
    else if acts[|acts| - 1].SetCasting? then acts[|acts| - 1].casting
    else LastCasting(acts[..|acts| - 1])
  }

  function LastClient(acts: seq<Action>): Option<string> {
    if acts == [] then None
    else if acts[|acts| - 1].SetClient? then acts[|acts| - 1].client
    else LastClient(acts[..|acts| - 1])
  }

  /** The rest of the state is what its setters last said, whoever else has written. */
  lemma {:induction false} SettersAreKept(p: seq<PendingInfo>, q: seq<PairedInfo>, acts: seq<Action>)
    requires Exec(Start(p, q), acts).Some?
    ensures var cast := Exec(Start(p, q), acts).value.cast;
            cast.casting == LastCasting(acts) && cast.client == LastClient(acts)
  {
    hide Step;
    if acts != [] {
      SettersAreKept(p, q, acts[..|acts| - 1]);
      OnlySettersSet(Exec(Start(p, q), acts[..|acts| - 1]).value, acts[|acts| - 1]);
    }
  }

  lemma OnlySettersSet(s: State, a: Action)
    requires Step(s, a).Some?
    ensures var t := Step(s, a).value.cast;
            && t.casting == (if a.SetCasting? then a.casting else s.cast.casting)
            && t.client == (if a.SetClient? then a.client else s.cast.client)
  {
    hide PendingEntries, PairedEntries;
  }

  /** End-to-end freshness, for any interleaving and any number of back-to-back fires. */
  lemma QuiescentIsFresh(s: State)
    requires Reachable(s) && Quiescent(s)
    ensures Fresh(s)
  {
    ReachableInv(s);
    EntriesList(s.pendingClients, s.pairedClients);
  }

  // ---------------------------------------------------------------- quiescence is reached

  /** An upper bound on the internal steps left, each weighted by the wakeups it causes. */
  function Work(s: State): nat {
    SubscriberWork(s.spc, s.sreg) + WatcherWork(s.wpc, s.wreg) + 5 * s.castDebt + 17 * s.mgrDebt
  }

  function SubscriberWork(pc: SubscriberPc, reg: Registration): nat {
    match pc
    case SRegister => 3
    case SRead => 2 + FiredWork(reg, 4)
    case SSend(_, _) => 1 + FiredWork(reg, 4)
    case SParked => FiredWork(reg, 4)
    case SClosed => 0
  }

  function WatcherWork(pc: WatcherPc, reg: Registration): nat {
    match pc
    case WRegister => 15
    case WReadPending => 14 + FiredWork(reg, 16)
    case WWritePending(_) => 13 + FiredWork(reg, 16)
    case WNotifyPending => 12 + FiredWork(reg, 16)
    case WReadPaired => 7 + FiredWork(reg, 16)
    case WWritePaired(_) => 6 + FiredWork(reg, 16)
    case WNotifyPaired => 5 + FiredWork(reg, 16)
    case WParked => FiredWork(reg, 16)
  }

  function FiredWork(r: Registration, work: nat): nat {
    if r == Fired then work else 0
  }

  /** A wakeup costs a subscriber a round of four steps, and the watcher one of sixteen,
      its own notifies' wakeups included. */
  lemma WakeupWorks(spc: SubscriberPc, sreg: Registration, wpc: WatcherPc, wreg: Registration)
    ensures SubscriberWork(spc, Notify(sreg)) <= SubscriberWork(spc, sreg) + 4
    ensures WatcherWork(wpc, Notify(wreg)) <= WatcherWork(wpc, wreg) + 16
  {
  }

  lemma InternalStepWorks(s: State, a: Action)
    requires Internal(a) && Step(s, a).Some?
    ensures Work(Step(s, a).value) < Work(s)
  {
    hide WatcherStep, SubscriberStep;
    if a == Watch {
      WatchWorks(s);
    } else if a == Serve {
      ServeWorks(s);
    } else {
      WakeupWorks(s.spc, s.sreg, s.wpc, s.wreg);
      hide SubscriberWork, WatcherWork;
    }
  }

  lemma WatchWorks(s: State)
    requires WatcherStep(s).Some?
    ensures Work(WatcherStep(s).value) < Work(s)
  {
    WakeupWorks(s.spc, s.sreg, s.wpc, s.wreg);
    hide SubscriberWork, PendingEntries, PairedEntries;
  }

  lemma ServeWorks(s: State)
    requires SubscriberStep(s).Some?
    ensures Work(SubscriberStep(s).value) < Work(s)
  {
    hide WatcherWork;
  }

  predicate SameClients(s: State, t: State) {
    t.pendingClients == s.pendingClients && t.pairedClients == s.pairedClients
  }

  lemma InternalKeepsClients(s: State, a: Action)
    requires Internal(a) && Step(s, a).Some?
    ensures SameClients(s, Step(s, a).value)
  {
  }

  predicate Stuck(s: State) {
    Step(s, NotifyManager).None? && Step(s, NotifyCast).None? && Step(s, Watch).None? && Step(s, Serve).None?
  }

  /** Nothing deadlocks short of quiescence. */
  lemma StuckIsQuiescent(s: State)
    requires Inv(s) && s.spc != SClosed
    ensures Stuck(s) <==> Quiescent(s)
  {
  }

  /** Left alone, the system settles in a bounded number of steps, whatever order they
      come in, and it settles on the current lists. */
  lemma {:induction false} Settles(s: State, acts: seq<Action>)
    requires Reachable(s)
    requires forall k | 0 <= k < |acts| :: Internal(acts[k])
    requires Exec(s, acts).Some?
    ensures var t := Exec(s, acts).value;
            && Reachable(t)
            && |acts| + Work(t) <= Work(s)
            && SameClients(s, t)
            && (Stuck(t) && t.spc != SClosed ==> Fresh(t))
  {
    hide Step, Work, Stuck, Inv, Quiescent, Fresh, Reachable;
    if acts != [] {
      var front, a := acts[..|acts| - 1], acts[|acts| - 1];
      Settles(s, front);
      var u := Exec(s, front).value;
      InternalStepWorks(u, a);
      InternalKeepsClients(u, a);
      ReachableStep(u, a);
    }
    var t := Exec(s, acts).value;
    ReachableInv(t);
    if Stuck(t) && t.spc != SClosed {
      StuckIsQuiescent(t);
      QuiescentIsFresh(t);
    }
  }

  lemma ReachableStep(s: State, a: Action)
    requires Reachable(s) && Step(s, a).Some?
    ensures Reachable(Step(s, a).value)
  {
    var p, q, acts :| Exec(Start(p, q), acts) == Some(s);
    assert (acts + [a])[..|acts|] == acts;
    assert Exec(Start(p, q), acts + [a]) == Step(s, a);
  }
}
