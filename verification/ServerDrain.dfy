/** Once no new input arrives, the server delivers everything it has: each internal step decreases a measure, and
    the only states without an internal step are those in which nothing is queued or in hand. No fairness is assumed. */
module ServerDrain {
  import opened Common
  import opened CyclicQueue
  import opened ServerModel
  import opened ServerSafety
  import opened ServerWakeups

  /** Nothing queued, no message in any thread's hands, no signal owed, all delivering threads waiting. */
  ghost predicate Drained(s: State)
    requires s.shared.queue.Valid()
  {
    && s.shared.queue.Items() == []
    && (forall c :: 0 <= c < |s.consumers| ==> s.consumers[c].WaitMessage?)
    && (forall p :: 0 <= p < |s.clients| ==>
          MessageInHand(s.clients[p].pc).None? && OwesConsumerSignal(s.clients[p]) == 0)
  }

  /** No step is enabled that needs neither input nor a spurious wake-up. */
  ghost predicate Stuck(cfg: Config, s: State) {
    forall a: Action :: a.Internal() ==> !Enabled(cfg, s, a)
  }

  // ---- A stuck state is drained ----

  /** Whoever holds the message lock can go on. */
  lemma OwnerCanStep(cfg: Config, s: State) returns (a: Action)
    requires Inv(cfg, s) && s.shared.messageLock.Some?
    ensures a.Internal() && Enabled(cfg, s, a)
  {
    match s.shared.messageLock.value
    case ByClient(p) =>
      assert ClientInv(cfg, s.shared, p, s.clients[p]);
      a := StepClient(p);
    case ByConsumer(c) =>
      assert ConsumerInv(cfg, s.shared, c, s.consumers[c]);
      a := StepConsumer(c);
  }

  lemma StuckLockIsFree(cfg: Config, s: State)
    requires Inv(cfg, s) && Stuck(cfg, s)
    ensures s.shared.messageLock == None
  {
    if s.shared.messageLock.Some? {
      var a := OwnerCanStep(cfg, s);
    }
  }

  lemma StuckConsumerWaits(cfg: Config, s: State, c: nat)
    requires Inv(cfg, s) && Stuck(cfg, s) && c < |s.consumers|
    ensures s.consumers[c].WaitMessage?
  {
    StuckLockIsFree(cfg, s);
    assert ConsumerInv(cfg, s.shared, c, s.consumers[c]);
    assert !Enabled(cfg, s, StepConsumer(c));
    if s.consumers[c].SignalClient? {
      if p :| ClientWaits(s, p) {
        assert Enabled(cfg, s, SignalToClient(c, Some(p)));
      } else {
        assert Enabled(cfg, s, SignalToClient(c, None));
      }
    }
  }

  lemma StuckClientAwaits(cfg: Config, s: State, p: nat)
    requires Inv(cfg, s) && Stuck(cfg, s) && p < |s.clients|
    ensures OwesConsumerSignal(s.clients[p]) == WokenClient(s.clients[p]) == 0
    ensures MessageInHand(s.clients[p].pc).Some? ==> ClientWaits(s, p)
  {
    StuckLockIsFree(cfg, s);
    assert ClientInv(cfg, s.shared, p, s.clients[p]);
    assert !Enabled(cfg, s, StepClient(p));
    if s.clients[p].pc.SignalConsumer? {
      if c :| ConsumerWaits(s, c) {
        assert Enabled(cfg, s, SignalToConsumer(p, Some(c)));
      } else {
        assert Enabled(cfg, s, SignalToConsumer(p, None));
      }
    }
  }

  /** Main result: with any capacity and any delivering thread at all, the server never gets stuck on a message. */
  lemma StuckIsDrained(cfg: Config, s: State)
    requires Inv(cfg, s) && NoLostWakeup(cfg, s) && cfg.consumers > 0 && cfg.capacity > 0 && Stuck(cfg, s)
    ensures Drained(s)
  {
    forall c | 0 <= c < |s.consumers| ensures s.consumers[c].WaitMessage? {
      StuckConsumerWaits(cfg, s, c);
    }
    forall p | 0 <= p < |s.clients|
      ensures OwesConsumerSignal(s.clients[p]) == WokenClient(s.clients[p]) == 0
      ensures MessageInHand(s.clients[p].pc).Some? ==> ClientWaits(s, p)
    {
      StuckClientAwaits(cfg, s, p);
    }
    SumZero(s.clients, OwesConsumerSignal);
    SumZero(s.clients, WokenClient);
    SumZero(s.consumers, WokenConsumer);
    SumZero(s.consumers, OwesClientSignal);
    assert ConsumerWaits(s, 0);
    assert Queued(s.shared) == 0;
    assert forall p :: !ClientWaits(s, p);
  }

  // ---- The measure ----

  /** What one queued message may still cost: popping, signalling, waking a client and visiting every slot. */
  ghost function QueuedCost(cfg: Config): nat {
    3 * cfg.maxGroupSize + 8
  }

  ghost function ClientCost(cfg: Config, c: Client): nat {
    match c.pc
    case AwaitJoin | AwaitMessage | Gone => 0
    case LockJoin(_) => 7 + cfg.maxGroups
    case Scan(_, i) => if i <= cfg.maxGroups then 6 + cfg.maxGroups - i else 6
    case Create(_) => 5
    case Bump(_) => 4
    case Store => 3
    case UnlockJoin => 2
    case Reply | Leaving => 1
    case LockSend(_) | WokenSpace(_) => QueuedCost(cfg) + 7
    case CheckFull(_, _) => QueuedCost(cfg) + 6
    case WaitSpace(_) => QueuedCost(cfg) + 5
    case Inserting(_, _) => QueuedCost(cfg) + 5
    case UnlockSend => 4
    case SignalConsumer => 3
  }

  /** The slots of a fan-out that remain, counted against the size of the array, so growth of the group is covered. */
  ghost function SlotsLeft(cfg: Config, i: nat): nat {
    if i <= cfg.maxGroupSize then cfg.maxGroupSize - i else 0
  }

  ghost function ConsumerCost(cfg: Config, d: Consumer): nat {
    match d
    case WaitMessage => 0
    case Popping(_) => 0
    case CheckEmpty(_) => 1
    case LockTake => 2
    case WokenMessage => 2
    case UnlockTake(_) => 3 * cfg.maxGroupSize + 7
    case SignalClient(_) => 3 * cfg.maxGroupSize + 6
    case Test(_, i) => 3 * SlotsLeft(cfg, i) + 3
    case Visit(_, i) => 3 * SlotsLeft(cfg, i) + 2
    case Send(_, i) => 3 * SlotsLeft(cfg, i) + 1
  }

  ghost function ClientCosts(cfg: Config): Client -> nat {
    c => ClientCost(cfg, c)
  }

  ghost function ConsumerCosts(cfg: Config): Consumer -> nat {
    d => ConsumerCost(cfg, d)
  }

  ghost function QueueCost(cfg: Config, n: nat): nat {
    QueuedCost(cfg) * n
  }

  lemma OneMoreQueued(cfg: Config, n: nat)
    ensures QueueCost(cfg, n + 1) == QueueCost(cfg, n) + QueuedCost(cfg)
  {
  }

  ghost function Measure(cfg: Config, s: State): nat
    requires s.shared.queue.Valid()
  {
    Sum(s.clients, ClientCosts(cfg)) + Sum(s.consumers, ConsumerCosts(cfg)) + QueueCost(cfg, Queued(s.shared))
  }

  lemma ClientStepCosts(cfg: Config, sh: Shared, p: nat, c: Client)
    requires Sizes(cfg, sh) && ClientInv(cfg, sh, p, c) && ClientCanStep(cfg, sh, c)
    ensures var (sh', c') := ClientStep(cfg, sh, p, c);
            if c.pc.Inserting?
            then sh'.queue.Valid() && Queued(sh') == Queued(sh) + 1
                 && ClientCost(cfg, c') + QueuedCost(cfg) < ClientCost(cfg, c)
            else sh'.queue == sh.queue && ClientCost(cfg, c') < ClientCost(cfg, c)
  {
    if c.pc.Inserting? {
      InsertAppends(sh.queue, c.pc.m);
    }
  }

  lemma ConsumerStepCosts(cfg: Config, sh: Shared, c: nat, d: Consumer)
    requires Sizes(cfg, sh) && ConsumerInv(cfg, sh, c, d) && ConsumerCanStep(sh, d)
    ensures var (sh', d') := ConsumerStep(sh, c, d);
            if d.Popping?
            then sh'.queue.Valid() && Queued(sh) == Queued(sh') + 1
                 && ConsumerCost(cfg, d') < ConsumerCost(cfg, d) + QueuedCost(cfg)
            else sh'.queue == sh.queue && ConsumerCost(cfg, d') < ConsumerCost(cfg, d)
  {
    if d.Popping? {
      PopRemoves(sh.queue);
    }
  }

  lemma ClientStepDecreases(cfg: Config, s: State, p: nat)
    requires Inv(cfg, s) && Enabled(cfg, s, StepClient(p))
    ensures var s' := Apply(cfg, s, StepClient(p));
            s'.shared.queue.Valid() && Measure(cfg, s') < Measure(cfg, s)
  {
    hide Sum, QueueCost, SharedInv, ClientInv, ConsumerInv, Held;
    SharedSizes(cfg, s.shared);
    var s' := Apply(cfg, s, StepClient(p));
    SumUpdate(s.clients, p, s'.clients[p], ClientCosts(cfg));
    ClientStepCosts(cfg, s.shared, p, s.clients[p]);
    OneMoreQueued(cfg, Queued(s.shared));
  }

  lemma ConsumerStepDecreases(cfg: Config, s: State, c: nat)
    requires Inv(cfg, s) && Enabled(cfg, s, StepConsumer(c))
    ensures var s' := Apply(cfg, s, StepConsumer(c));
            s'.shared.queue.Valid() && Measure(cfg, s') < Measure(cfg, s)
  {
    hide Sum, QueueCost, SharedInv, ClientInv, ConsumerInv, Held;
    SharedSizes(cfg, s.shared);
    var s' := Apply(cfg, s, StepConsumer(c));
    SumUpdate(s.consumers, c, s'.consumers[c], ConsumerCosts(cfg));
    ConsumerStepCosts(cfg, s.shared, c, s.consumers[c]);
    OneMoreQueued(cfg, Queued(s'.shared));
  }

  lemma SignalToConsumerDecreases(cfg: Config, s: State, p: nat, target: Option<nat>)
    requires s.shared.queue.Valid() && Enabled(cfg, s, SignalToConsumer(p, target))
    ensures Measure(cfg, Apply(cfg, s, SignalToConsumer(p, target))) < Measure(cfg, s)
  {
    hide Sum, QueueCost;
    SumUpdate(s.clients, p, s.clients[p].(pc := AwaitMessage), ClientCosts(cfg));
    if target.Some? {
      SumUpdate(s.consumers, target.value, WokenMessage, ConsumerCosts(cfg));
    }
  }

  lemma SignalToClientDecreases(cfg: Config, s: State, c: nat, target: Option<nat>)
    requires s.shared.queue.Valid() && Enabled(cfg, s, SignalToClient(c, target))
    ensures Measure(cfg, Apply(cfg, s, SignalToClient(c, target))) < Measure(cfg, s)
  {
    hide Sum, QueueCost;
    SumUpdate(s.consumers, c, Test(s.consumers[c].job, 0), ConsumerCosts(cfg));
    if target.Some? {
      var client := s.clients[target.value];
      SumUpdate(s.clients, target.value, client.(pc := WokenSpace(client.pc.m)), ClientCosts(cfg));
    }
  }

  lemma InternalStepDecreases(cfg: Config, s: State, a: Action)
    requires Inv(cfg, s) && Enabled(cfg, s, a) && a.Internal()
    ensures Inv(cfg, Apply(cfg, s, a))
    ensures Measure(cfg, Apply(cfg, s, a)) < Measure(cfg, s)
  {
    StepKeepsInv(cfg, s, a);
    if a.StepClient? {
      ClientStepDecreases(cfg, s, a.p);
    } else if a.StepConsumer? {
      ConsumerStepDecreases(cfg, s, a.c);
    } else if a.SignalToConsumer? {
      SignalToConsumerDecreases(cfg, s, a.p, a.target);
    } else {
      SignalToClientDecreases(cfg, s, a.c, a.target);
    }
  }

  // ---- Bounded drain ----

  ghost predicate OnlyInternal(run: seq<Action>) {
    forall i :: 0 <= i < |run| ==> run[i].Internal()
  }

  lemma {:induction false} InternalRunsAreBounded(cfg: Config, s: State, run: seq<Action>)
    requires Inv(cfg, s) && Legal(cfg, s, run) && OnlyInternal(run)
    ensures Inv(cfg, Exec(cfg, s, run))
    ensures |run| + Measure(cfg, Exec(cfg, s, run)) <= Measure(cfg, s)
    decreases |run|
  {
    if run != [] {
      InternalStepDecreases(cfg, s, run[0]);
      InternalRunsAreBounded(cfg, Apply(cfg, s, run[0]), run[1..]);
    }
  }

  /** Every popped message has been fanned out, and no inserted one was not popped. */
  ghost predicate AllDelivered(sh: Shared) {
    && Popped(sh.jobs) == sh.inserted
    && (forall k :: 0 <= k < |sh.jobs| ==> sh.jobs[k].finished)
  }

  lemma SomeoneWorks(cfg: Config, s: State, k: nat)
    requires Inv(cfg, s) && k < |s.shared.jobs| && !s.shared.jobs[k].finished
    ensures exists c :: 0 <= c < |s.consumers| && !s.consumers[c].WaitMessage?
  {
  }

  lemma DrainedIsDelivered(cfg: Config, s: State)
    requires Inv(cfg, s) && Drained(s)
    ensures AllDelivered(s.shared)
  {
    assert s.shared.inserted == Popped(s.shared.jobs) + [];
    var sh := s.shared;
    forall k | 0 <= k < |sh.jobs| ensures sh.jobs[k].finished {
      if !sh.jobs[k].finished {
        SomeoneWorks(cfg, s, k);
      }
    }
  }

  /** Main result: after any history, a run without input has at most `Measure` steps, and when it can go no
      further every message has been fanned out. */
  lemma ServerDrains(cfg: Config, start: State, history: seq<Action>, run: seq<Action>)
    requires cfg.consumers > 0 && cfg.capacity > 0
    requires Init(cfg, start) && Legal(cfg, start, history)
    requires Legal(cfg, Exec(cfg, start, history), run) && OnlyInternal(run)
    ensures var s := Exec(cfg, start, history);
            var end := Exec(cfg, s, run);
            && s.shared.queue.Valid() && end.shared.queue.Valid()
            && |run| <= Measure(cfg, s)
            && (Stuck(cfg, end) ==> Drained(end) && AllDelivered(end.shared))
  {
    WakeupsAtStart(cfg, start);
    WakeupsAreNeverLost(cfg, start, history);
    var s := Exec(cfg, start, history);
    InternalRunsAreBounded(cfg, s, run);
    WakeupsAreNeverLost(cfg, s, run);
    var end := Exec(cfg, s, run);
    if Stuck(cfg, end) {
      StuckIsDrained(cfg, end);
      DrainedIsDelivered(cfg, end);
    }
  }

  /** A drained server stays drained until new input arrives. */
  lemma DrainedIsStable(cfg: Config, s: State, a: Action)
    requires Inv(cfg, s) && Drained(s) && Enabled(cfg, s, a) && a.Internal()
    ensures Apply(cfg, s, a).shared.queue.Valid() && Drained(Apply(cfg, s, a))
  {
    hide SharedInv, ClientInv, ConsumerInv, Held, ClientStep, ClientCanStep, ConsumerStep, ConsumerCanStep, Ring.Items;
    SharedSizes(cfg, s.shared);
    if a.StepClient? {
      IdleClientStep(cfg, s.shared, a.p, s.clients[a.p]);
    } else if a.StepConsumer? {
      WaitingConsumerCannotStep(s.shared, s.consumers[a.c]);
    }
  }

  /** A client without a message and without a signal to send stays so, and leaves the queue alone. */
  lemma IdleClientStep(cfg: Config, sh: Shared, p: nat, c: Client)
    requires Sizes(cfg, sh) && ClientInv(cfg, sh, p, c) && ClientCanStep(cfg, sh, c)
    requires MessageInHand(c.pc).None? && OwesConsumerSignal(c) == 0
    ensures var (sh', c') := ClientStep(cfg, sh, p, c);
            sh'.queue == sh.queue && MessageInHand(c'.pc).None? && OwesConsumerSignal(c') == 0
  {
  }

  lemma WaitingConsumerCannotStep(sh: Shared, d: Consumer)
    requires d.WaitMessage?
    ensures !ConsumerCanStep(sh, d)
  {
  }
}
