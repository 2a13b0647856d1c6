/** No wake-up is lost: two counting invariants over all interleavings, although every signal is sent after the
    mutex has been released. They rule out a state in which messages are queued and every thread is stuck. */
module ServerWakeups {
  import opened Common
  import opened CyclicQueue
  import opened ServerModel
  import opened ServerSafety

  // ---- What is counted ----

  /** Client threads that have inserted a message and not yet signalled `c_cons`. */
  ghost function OwesConsumerSignal(c: Client): nat {
    if c.pc.UnlockSend? || c.pc.SignalConsumer? then 1 else 0
  }

  /** Delivering threads that were woken and have not yet popped (or gone back to waiting). */
  ghost function WokenConsumer(d: Consumer): nat {
    if d.WokenMessage? || d == CheckEmpty(true) || d == Popping(true) then 1 else 0
  }

  /** Delivering threads that have popped a message and not yet signalled `c_prod`. */
  ghost function OwesClientSignal(d: Consumer): nat {
    if d.UnlockTake? || d.SignalClient? then 1 else 0
  }

  /** Client threads that were woken and have not yet inserted (or gone back to waiting). */
  ghost function WokenClient(c: Client): nat {
    if c.pc.WokenSpace? || (c.pc.CheckFull? && c.pc.woken) || (c.pc.Inserting? && c.pc.woken) then 1 else 0
  }

  ghost function Queued(sh: Shared): nat
    requires sh.queue.Valid()
  {
    |sh.queue.Items()|
  }

  /** While a delivering thread waits, each queued message has a signal on its way or a woken thread to take it. */
  ghost predicate ConsumersServed(s: State)
    requires s.shared.queue.Valid()
  {
    (exists c :: ConsumerWaits(s, c)) ==>
      Queued(s.shared) <= Sum(s.clients, OwesConsumerSignal) + Sum(s.consumers, WokenConsumer)
  }

  /** While a client thread waits for space, each free slot has a signal on its way or a woken thread to fill it. */
  ghost predicate ClientsServed(cfg: Config, s: State)
    requires s.shared.queue.Valid()
  {
    (exists p :: ClientWaits(s, p)) ==>
      cfg.capacity - Queued(s.shared) <= Sum(s.consumers, OwesClientSignal) + Sum(s.clients, WokenClient)
  }

  ghost predicate NoLostWakeup(cfg: Config, s: State)
    requires s.shared.queue.Valid()
  {
    ConsumersServed(s) && ClientsServed(cfg, s)
  }

  // ---- How one step changes the counts ----

  ghost predicate ReplacesClient(s: State, s': State, p: nat) {
    p < |s.clients| && p < |s'.clients| && s'.clients == s.clients[p := s'.clients[p]]
  }

  lemma ClientSums(s: State, s': State, p: nat)
    requires ReplacesClient(s, s', p)
    ensures Sum(s'.clients, OwesConsumerSignal) + OwesConsumerSignal(s.clients[p])
         == Sum(s.clients, OwesConsumerSignal) + OwesConsumerSignal(s'.clients[p])
    ensures Sum(s'.clients, WokenClient) + WokenClient(s.clients[p])
         == Sum(s.clients, WokenClient) + WokenClient(s'.clients[p])
  {
    SumUpdate(s.clients, p, s'.clients[p], OwesConsumerSignal);
    SumUpdate(s.clients, p, s'.clients[p], WokenClient);
  }

  ghost predicate ReplacesConsumer(s: State, s': State, c: nat) {
    c < |s.consumers| && c < |s'.consumers| && s'.consumers == s.consumers[c := s'.consumers[c]]
  }

  lemma ConsumerSums(s: State, s': State, c: nat)
    requires ReplacesConsumer(s, s', c)
    ensures Sum(s'.consumers, OwesClientSignal) + OwesClientSignal(s.consumers[c])
         == Sum(s.consumers, OwesClientSignal) + OwesClientSignal(s'.consumers[c])
    ensures Sum(s'.consumers, WokenConsumer) + WokenConsumer(s.consumers[c])
         == Sum(s.consumers, WokenConsumer) + WokenConsumer(s'.consumers[c])
  {
    SumUpdate(s.consumers, c, s'.consumers[c], OwesClientSignal);
    SumUpdate(s.consumers, c, s'.consumers[c], WokenConsumer);
  }

  /** What one client step does to the queue and to this client's weights. */
  lemma ClientStepCounts(cfg: Config, sh: Shared, p: nat, c: Client)
    requires Sizes(cfg, sh) && ClientInv(cfg, sh, p, c) && ClientCanStep(cfg, sh, c)
    ensures var (sh', c') := ClientStep(cfg, sh, p, c);
            && sh'.queue.Valid()
            && Queued(sh') - Queued(sh) == OwesConsumerSignal(c') - OwesConsumerSignal(c)
            && (!c'.pc.WaitSpace? ==> Queued(sh') - Queued(sh) >= WokenClient(c) - WokenClient(c'))
            && (c'.pc.WaitSpace? ==> Queued(sh') == cfg.capacity)
            && !c.pc.WaitSpace?
  {
    Observers(sh.queue);
    if c.pc.Inserting? {
      InsertAppends(sh.queue, c.pc.m);
    }
  }

  lemma ConsumerStepCounts(cfg: Config, sh: Shared, c: nat, d: Consumer)
    requires Sizes(cfg, sh) && ConsumerInv(cfg, sh, c, d) && ConsumerCanStep(sh, d)
    ensures var (sh', d') := ConsumerStep(sh, c, d);
            && sh'.queue.Valid()
            && Queued(sh) - Queued(sh') == OwesClientSignal(d') - OwesClientSignal(d)
            && (!d'.WaitMessage? ==> Queued(sh) - Queued(sh') >= WokenConsumer(d) - WokenConsumer(d'))
            && (d'.WaitMessage? ==> Queued(sh') == 0)
            && !d.WaitMessage?
  {
    Observers(sh.queue);
    if d.Popping? {
      PopRemoves(sh.queue);
    }
  }

  // ---- The invariant ----

  lemma ClientStepKeepsWakeups(cfg: Config, s: State, p: nat)
    requires Inv(cfg, s) && NoLostWakeup(cfg, s) && Enabled(cfg, s, StepClient(p))
    ensures var s' := Apply(cfg, s, StepClient(p)); s'.shared.queue.Valid() && NoLostWakeup(cfg, s')
  {
    hide Sum, SharedInv, ClientInv, ConsumerInv, Held;
    SharedSizes(cfg, s.shared);
    var s' := Apply(cfg, s, StepClient(p));
    ClientStepCounts(cfg, s.shared, p, s.clients[p]);
    ClientSums(s, s', p);
    assert forall c :: ConsumerWaits(s', c) ==> ConsumerWaits(s, c);
    assert forall q :: q != p && ClientWaits(s', q) ==> ClientWaits(s, q);
  }

  lemma ConsumerStepKeepsWakeups(cfg: Config, s: State, c: nat)
    requires Inv(cfg, s) && NoLostWakeup(cfg, s) && Enabled(cfg, s, StepConsumer(c))
    ensures var s' := Apply(cfg, s, StepConsumer(c)); s'.shared.queue.Valid() && NoLostWakeup(cfg, s')
  {
    hide Sum, SharedInv, ClientInv, ConsumerInv, Held;
    SharedSizes(cfg, s.shared);
    var s' := Apply(cfg, s, StepConsumer(c));
    ConsumerStepCounts(cfg, s.shared, c, s.consumers[c]);
    ConsumerSums(s, s', c);
    assert forall e :: e != c && ConsumerWaits(s', e) ==> ConsumerWaits(s, e);
    assert forall q :: ClientWaits(s', q) ==> ClientWaits(s, q);
  }

  lemma SignalToConsumerKeepsWakeups(cfg: Config, s: State, p: nat, target: Option<nat>)
    requires Inv(cfg, s) && NoLostWakeup(cfg, s) && Enabled(cfg, s, SignalToConsumer(p, target))
    ensures NoLostWakeup(cfg, Apply(cfg, s, SignalToConsumer(p, target)))
  {
    hide Sum, SharedInv, ClientInv, ConsumerInv, Held;
    SharedSizes(cfg, s.shared);
    var s' := Apply(cfg, s, SignalToConsumer(p, target));
    ClientSums(s, s', p);
    if target.Some? {
      ConsumerSums(s, s', target.value);
    }
    assert forall c :: ConsumerWaits(s', c) ==> ConsumerWaits(s, c);
    assert forall q :: ClientWaits(s', q) ==> ClientWaits(s, q);
  }

  lemma SignalToClientKeepsWakeups(cfg: Config, s: State, c: nat, target: Option<nat>)
    requires Inv(cfg, s) && NoLostWakeup(cfg, s) && Enabled(cfg, s, SignalToClient(c, target))
    ensures NoLostWakeup(cfg, Apply(cfg, s, SignalToClient(c, target)))
  {
    hide Sum, SharedInv, ClientInv, ConsumerInv, Held;
    SharedSizes(cfg, s.shared);
    var s' := Apply(cfg, s, SignalToClient(c, target));
    ConsumerSums(s, s', c);
    if target.Some? {
      ClientSums(s, s', target.value);
    }
    assert forall e :: ConsumerWaits(s', e) ==> ConsumerWaits(s, e);
    assert forall q :: ClientWaits(s', q) ==> ClientWaits(s, q);
  }

  lemma InputKeepsWakeups(cfg: Config, s: State, a: Action)
    requires Inv(cfg, s) && NoLostWakeup(cfg, s) && Enabled(cfg, s, a) && !a.Internal()
    ensures NoLostWakeup(cfg, Apply(cfg, s, a))
  {
    hide Sum, SharedInv, ClientInv, ConsumerInv, Held;
    SharedSizes(cfg, s.shared);
    var s' := Apply(cfg, s, a);
    if a.Connect? {
      SumAppend(s.clients, s'.clients[|s.clients|], OwesConsumerSignal);
      SumAppend(s.clients, s'.clients[|s.clients|], WokenClient);
    } else if a.SpuriousConsumer? {
      ConsumerSums(s, s', a.c);
    } else {
      ClientSums(s, s', a.p);
    }
    assert forall c :: ConsumerWaits(s', c) ==> ConsumerWaits(s, c);
    assert forall p :: ClientWaits(s', p) ==> ClientWaits(s, p);
  }

  /** Main result: from the start of the server, through any interleaving, no wake-up is lost. */
  lemma {:induction false} WakeupsAreNeverLost(cfg: Config, s: State, run: seq<Action>)
    requires Inv(cfg, s) && NoLostWakeup(cfg, s) && Legal(cfg, s, run)
    ensures var s' := Exec(cfg, s, run); Inv(cfg, s') && NoLostWakeup(cfg, s')
    decreases |run|
  {
    if run != [] {
      var a := run[0];
      StepKeepsInv(cfg, s, a);
      if a.StepClient? {
        ClientStepKeepsWakeups(cfg, s, a.p);
      } else if a.StepConsumer? {
        ConsumerStepKeepsWakeups(cfg, s, a.c);
      } else if a.SignalToConsumer? {
        SignalToConsumerKeepsWakeups(cfg, s, a.p, a.target);
      } else if a.SignalToClient? {
        SignalToClientKeepsWakeups(cfg, s, a.c, a.target);
      } else {
        InputKeepsWakeups(cfg, s, a);
      }
      WakeupsAreNeverLost(cfg, Apply(cfg, s, a), run[1..]);
    }
  }

  lemma WakeupsAtStart(cfg: Config, s: State)
    requires Init(cfg, s)
    ensures Inv(cfg, s) && NoLostWakeup(cfg, s)
  {
    InitInv(cfg, s);
  }
}
