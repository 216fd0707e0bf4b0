/** The loops themselves: the setters and the subscription of `rgsp-host/src/control.rs`,
    the watcher of `rgsp-host/src/main.rs`. Each takes its own steps with anybody else's
    between any two of them, and only ever makes runs of the machine in Freshness. */
module Control {
  import opened Common
  import opened Freshness
  import opened Notifier

  class Daemon {
    // the client manager, and the watcher's future on its `Notify`
    var pendingClients: seq<PendingInfo>
    var pairedClients: seq<PairedInfo>
    var mgrDebt: nat
    var wpc: WatcherPc
    var wreg: Registration
    // the control handle, and the subscription's future on its `Notify`
    var cast: CastState
    var castDebt: nat
    var spc: SubscriberPc
    var sreg: Registration
    var sent: seq<CastState>
    var sentAt: seq<nat>
    var history: seq<CastState>

    ghost var acts: seq<Action>
    ghost const firstPending: seq<PendingInfo>
    ghost const firstPaired: seq<PairedInfo>

    function View(): State
      reads this
    {
      State(pendingClients, pairedClients, mgrDebt, cast, castDebt, wpc, wreg, spc, sreg, sent, sentAt, history)
    }

    /** What has happened so far is a run of the machine. */
    ghost predicate Traced()
      reads this
    {
      Exec(Start(firstPending, firstPaired), acts) == Some(View())
    }

    constructor (p: seq<PendingInfo>, q: seq<PairedInfo>)
      ensures Traced() && spc == SRegister && wpc == WRegister
    {
      pendingClients, pairedClients, mgrDebt, cast, castDebt := p, q, 0, EMPTY, 0;
      wpc, wreg, spc, sreg := WRegister, Unregistered, SRegister, Unregistered;
      sent, sentAt, history := [], [], [EMPTY];
      acts, firstPending, firstPaired := [], p, q;
    }

    ghost method Did(before: State, a: Action)
      requires Exec(Start(firstPending, firstPaired), acts) == Some(before) && Step(before, a) == Some(View())
      modifies `acts
      ensures Traced()
    {
      assert (acts + [a])[..|acts|] == acts;
      acts := acts + [a];
    }

    /** Anybody else's steps, in any number; a watcher or a subscription steps only itself. */
    method Others(me: Action)
      requires Traced() && me in {Watch, Serve}
      modifies this
      ensures Traced() && |history| >= |old(history)|
      ensures me == Watch ==> wpc == old(wpc) && (old(wreg) != Unregistered ==> wreg != Unregistered)
      ensures me == Watch ==> cast.pending == old(cast.pending) && cast.paired == old(cast.paired)
      ensures me == Serve ==> spc == old(spc) && sent == old(sent) && sentAt == old(sentAt)
                              && (old(sreg) != Unregistered ==> sreg != Unregistered)
    {
      hide Exec;
      var n: nat :| n >= 0;
      for k := 0 to n
        invariant Traced() && |history| >= |old(history)|
        invariant me == Watch ==> wpc == old(wpc) && (old(wreg) != Unregistered ==> wreg != Unregistered)
        invariant me == Watch ==> cast.pending == old(cast.pending) && cast.paired == old(cast.paired)
        invariant me == Serve ==> spc == old(spc) && sent == old(sent) && sentAt == old(sentAt)
                                  && (old(sreg) != Unregistered ==> sreg != Unregistered)
      {
        var a: Action := *;
        var next := Step(View(), a);
        if next.Some? && a != me && !(me == Serve && a == CloseSubscriber) {
          OthersKeep(View(), a);
          Load(next.value, a);
        }
      }
    }

    method Load(t: State, ghost a: Action)
      requires Traced() && Step(View(), a) == Some(t)
      modifies this
      ensures Traced() && View() == t
    {
      hide Exec, Step;
      ghost var before := View();
      LoadManager(t);
      LoadHandle(t);
      Did(before, a);
    }

    method LoadManager(t: State)
      modifies `pendingClients, `pairedClients, `mgrDebt, `wpc, `wreg
      ensures pendingClients == t.pendingClients && pairedClients == t.pairedClients && mgrDebt == t.mgrDebt
      ensures wpc == t.wpc && wreg == t.wreg
    {
      pendingClients, pairedClients, mgrDebt, wpc, wreg := t.pendingClients, t.pairedClients, t.mgrDebt, t.wpc, t.wreg;
    }

    method LoadHandle(t: State)
      modifies `cast, `castDebt, `spc, `sreg, `sent, `sentAt, `history
      ensures cast == t.cast && castDebt == t.castDebt && spc == t.spc && sreg == t.sreg
      ensures sent == t.sent && sentAt == t.sentAt && history == t.history
    {
      cast, castDebt, spc, sreg := t.cast, t.castDebt, t.spc, t.sreg;
      sent, sentAt, history := t.sent, t.sentAt, t.history;
    }

    /** A write of the locked state. */
    method WriteCast(c: CastState)
      modifies `cast, `history
      ensures cast == c && history == old(history) + [c]
    {
      cast := c;
      history := history + [c];
    }

    /** `set_casting`: the write and, any time later, its notify. */
    method SetCasting(casting: bool)
      requires Traced()
      modifies this
      ensures Traced() && Some(View()) == Step(old(View()), Action.SetCasting(casting))
      ensures cast == old(cast).(casting := casting) && history == old(history) + [cast] && castDebt == old(castDebt) + 1
    {
      ghost var before := View();
      WriteCast(cast.(casting := casting));
      castDebt := castDebt + 1;
      Did(before, Action.SetCasting(casting));
    }

    method SetClient(client: Option<string>)
      requires Traced()
      modifies this
      ensures Traced() && Some(View()) == Step(old(View()), Action.SetClient(client))
      ensures cast == old(cast).(client := client) && history == old(history) + [cast] && castDebt == old(castDebt) + 1
    {
      ghost var before := View();
      WriteCast(cast.(client := client));
      castDebt := castDebt + 1;
      Did(before, Action.SetClient(client));
    }

    method NotifyWaiters()
      requires Traced() && castDebt > 0
      modifies this
      ensures Traced() && Some(View()) == Step(old(View()), NotifyCast)
    {
      ghost var before := View();
      castDebt := castDebt - 1;
      sreg := Notify(sreg);
      Did(before, NotifyCast);
    }

    /** The watcher publishes both lists, each read, written and notified in its own time:
        `pendings` and `paireds` are what the manager held when they were read. */
    method Publish() returns (ghost pendings: seq<PendingInfo>, ghost paireds: seq<PairedInfo>)
      requires Traced() && wpc == WReadPending && wreg != Unregistered
      modifies this
      ensures Traced() && wpc == WParked && wreg != Unregistered && |history| >= |old(history)| + 2
      ensures ListsPending(cast.pending, pendings) && ListsPaired(cast.paired, paireds)
    {
      hide Exec, Step, ListsPending, ListsPaired;
      ReadPending();
      pendings := pendingClients;
      SetPending(wpc.pending);
      ReadPaired();
      paireds := pairedClients;
      SetPaired(wpc.paired);
    }

    method ReadPending()
      requires Traced() && wpc == WReadPending && wreg != Unregistered
      modifies this
      ensures Traced() && wpc.WWritePending? && wreg != Unregistered && |history| >= |old(history)|
      ensures ListsPending(wpc.pending, pendingClients)
    {
      hide Exec, SubscriberStep, PendingEntries, PairedEntries, ListsPending;
      Others(Watch);
      EntriesList(pendingClients, pairedClients);
      var v := PendingEntries(pendingClients);
      ghost var before := View();
      wpc := WWritePending(v);
      Did(before, Watch);
    }

    /** `set_pending`: the write and, any time later, its notify. */
    method SetPending(v: seq<PendingEntry>)
      requires Traced() && wpc == WWritePending(v) && wreg != Unregistered
      modifies this
      ensures Traced() && wpc == WReadPaired && wreg != Unregistered && |history| > |old(history)|
      ensures cast.pending == v
    {
      hide Exec, SubscriberStep, PendingEntries, PairedEntries;
      Others(Watch);
      ghost var before := View();
      WriteCast(cast.(pending := v));
      wpc := WNotifyPending;
      Did(before, Watch);
      Others(Watch);
      before := View();
      sreg, wpc := Notify(sreg), WReadPaired;
      Did(before, Watch);
    }

    method ReadPaired()
      requires Traced() && wpc == WReadPaired && wreg != Unregistered
      modifies this
      ensures Traced() && wpc.WWritePaired? && wreg != Unregistered && |history| >= |old(history)|
      ensures ListsPaired(wpc.paired, pairedClients) && cast.pending == old(cast.pending)
    {
      hide Exec, SubscriberStep, PendingEntries, PairedEntries, ListsPaired;
      Others(Watch);
      EntriesList(pendingClients, pairedClients);
      var v := PairedEntries(pairedClients);
      ghost var before := View();
      wpc := WWritePaired(v);
      Did(before, Watch);
    }

    /** `set_paired`: the write and, any time later, its notify. */
    method SetPaired(v: seq<PairedEntry>)
      requires Traced() && wpc == WWritePaired(v) && wreg != Unregistered
      modifies this
      ensures Traced() && wpc == WParked && wreg != Unregistered && |history| > |old(history)|
      ensures cast.paired == v && cast.pending == old(cast.pending)
    {
      hide Exec, SubscriberStep, PendingEntries, PairedEntries;
      Others(Watch);
      ghost var before := View();
      WriteCast(cast.(paired := v));
      wpc := WNotifyPaired;
      Did(before, Watch);
      Others(Watch);
      before := View();
      sreg, wpc := Notify(sreg), WParked;
      Did(before, Watch);
    }

    /** The watcher task, for a number of rounds, each publishing both lists, or until it
        is parked with nothing fired. */
    method WatchClients(rounds: nat)
      requires Traced() && wpc == WRegister
      modifies this
      ensures Traced() && Freshness.Reachable(View())
      ensures if wpc == WRegister then |history| >= |old(history)| + 2 * rounds else wpc == WParked && wreg == Armed
      ensures wpc == WParked && mgrDebt == 0 ==>
                ListsPending(cast.pending, pendingClients) && ListsPaired(cast.paired, pairedClients)
    {
      hide Exec, Step, ListsPending, ListsPaired;
      var k, waiting := 0, false;
      while k < rounds && !waiting
        invariant Traced() && wpc == if waiting then WParked else WRegister
        invariant waiting ==> wreg == Armed
        invariant |history| >= |old(history)| + 2 * k && k <= rounds
      {
        Others(Watch);
        Register();
        var _, _ := Publish();
        Others(Watch);
        waiting := wreg != Fired;
        if !waiting {
          Wake();
        }
        k := k + 1;
      }
      assert Freshness.Reachable(View());
      if wpc == WParked && mgrDebt == 0 {
        ParkedHasPublished(View());
      }
    }

    method Register()
      requires Traced() && wpc == WRegister
      modifies this
      ensures Traced() && wpc == WReadPending && wreg == Armed && history == old(history)
    {
      ghost var before := View();
      wreg, wpc := Armed, WReadPending;
      Did(before, Watch);
    }

    method Wake()
      requires Traced() && wpc == WParked && wreg == Fired
      modifies this
      ensures Traced() && wpc == WRegister && history == old(history)
    {
      ghost var before := View();
      wreg, wpc := Unregistered, WRegister;
      Did(before, Watch);
    }

    /** A subscription, for a number of messages, until nothing has fired or the client is
        gone. Every message it sends is the state at its own read. */
    method Subscribe(messages: nat)
      requires Traced() && spc == SRegister
      modifies this
      ensures Traced() && Freshness.Reachable(View())
      ensures old(sent) <= sent && |sent| <= |old(sent)| + messages
      ensures match spc
              case SRegister => |sent| == |old(sent)| + messages
              case SParked => |sent| > |old(sent)| && sreg == Armed
              case _ => spc == SClosed
    {
      hide Exec, Step;
      var k, over := 0, false;
      while k < messages && !over
        invariant Traced() && k <= messages && old(sent) <= sent && |sent| <= |old(sent)| + k
        invariant if over then spc == SClosed || (spc == SParked && sreg == Armed && |sent| > |old(sent)|)
                  else spc == SRegister && |sent| == |old(sent)| + k
      {
        over := SendOne();
        k := k + 1;
      }
    }

    method SendOne() returns (over: bool)
      requires Traced() && spc == SRegister
      modifies this
      ensures Traced() && old(sent) <= sent && |old(sent)| <= |sent| <= |old(sent)| + 1
      ensures spc != SClosed ==> |sent| == |old(sent)| + 1
      ensures if over then spc == SClosed || (spc == SParked && sreg == Armed) else spc == SRegister
    {
      hide Exec, Step;
      Snapshot();
      Deliver();
      over := spc == SClosed;
      if !over {
        Others(Serve);
        over := Await();
      }
    }

    /** Parked: taken up again by a fire, or closed by a client that is gone; of the two arms
        either, when both are ready. */
    method Await() returns (over: bool)
      requires Traced() && spc == SParked && sreg != Unregistered
      modifies this
      ensures Traced() && sent == old(sent)
      ensures if over then spc == SClosed || (spc == SParked && sreg == Armed) else spc == SRegister
    {
      hide Exec, Step;
      var gone := *;
      if gone {
        Close();
      } else if sreg == Fired {
        Again();
      }
      over := spc != SRegister;
    }

    method Close()
      requires Traced() && spc == SParked
      modifies this
      ensures Traced() && spc == SClosed && sent == old(sent)
    {
      hide Exec;
      ghost var before := View();
      spc, sreg := SClosed, Unregistered;
      Did(before, CloseSubscriber);
    }

    /** Register first, then read. */
    method Snapshot()
      requires Traced() && spc == SRegister
      modifies this
      ensures Traced() && spc.SSend? && sent == old(sent) && sreg != Unregistered
    {
      hide Exec, WatcherStep;
      Others(Serve);
      ghost var before := View();
      sreg, spc := Armed, SRead;
      Did(before, Serve);
      Others(Serve);
      before := View();
      spc := SSend(cast, |history|);
      Did(before, Serve);
    }

    method Deliver()
      requires Traced() && spc.SSend? && sreg != Unregistered
      modifies this
      ensures spc == SParked ==> sreg != Unregistered
      ensures Traced() && if spc == SClosed then sent == old(sent) else spc == SParked && sent == old(sent) + [old(spc).msg]
    {
      hide Exec, WatcherStep;
      Others(Serve);
      ghost var before := View();
      var delivered := *;
      if delivered {
        sent, sentAt, spc := sent + [spc.msg], sentAt + [spc.at], SParked;
        Did(before, Serve);
      } else {
        spc, sreg := SClosed, Unregistered;
        Did(before, CloseSubscriber);
      }
    }

    method Again()
      requires Traced() && spc == SParked && sreg == Fired
      modifies this
      ensures Traced() && spc == SRegister && sent == old(sent)
    {
      hide Exec, WatcherStep;
      ghost var before := View();
      sreg, spc := Unregistered, SRegister;
      Did(before, Serve);
    }
  }

  lemma OthersKeep(s: State, a: Action)
    requires Step(s, a).Some?
    ensures var t := Step(s, a).value;
            && |t.history| >= |s.history|
            && (a != Watch ==>
                  && t.wpc == s.wpc && (s.wreg != Unregistered ==> t.wreg != Unregistered)
                  && t.cast.pending == s.cast.pending && t.cast.paired == s.cast.paired)
            && (a != Serve && a != CloseSubscriber ==>
                  t.spc == s.spc && t.sent == s.sent && t.sentAt == s.sentAt
                  && (s.sreg != Unregistered ==> t.sreg != Unregistered))
  {
  }
}
