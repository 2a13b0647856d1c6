/**
 * What clients ask for, and what the server makes of it, over whole runs of src/server.c: messages enter the queue as
 * they were read, descriptors and group names are those that the clients came with.
 */
module ServerMessages {
  import opened Common
  import opened ServerModel
  import opened ServerSafety
  import opened ServerDelivery
  import opened ServerWakeups
  import opened ServerDrain

  // ---- What a run reads ----

  function Rest(run: seq<Action>): seq<Action>
    requires run != []
  {
    run[..|run| - 1]
  }

  function Last(run: seq<Action>): Action
    requires run != []
  {
    run[|run| - 1]
  }

  /** All messages that the clients of a run send, in the order in which they are read. */
  function Read(run: seq<Action>): seq<Message> {
    if run == [] then []
    else Read(Rest(run)) + match Last(run) case ReadMessage(_, m) => [m] case _ => []
  }

  /** The messages of one client. */
  function ReadBy(run: seq<Action>, p: nat): seq<Message> {
    if run == [] then []
    else ReadBy(Rest(run), p) + match Last(run) case ReadMessage(q, m) => if p == q then [m] else [] case _ => []
  }

  /** The descriptors with which the clients come, in the order in which they come. */
  function Connected(run: seq<Action>): seq<nat> {
    if run == [] then []
    else Connected(Rest(run)) + match Last(run) case Connect(fd) => [fd] case _ => []
  }

  /** The group that a client asks for. */
  function Asked(run: seq<Action>, p: nat): Option<string> {
    if run == [] then None
    else match Last(run) case ReadJoin(q, name) => if p == q then Some(name) else Asked(Rest(run), p)
                         case _ => Asked(Rest(run), p)
  }

  // ---- Messages ----

  /** The message that a client has read and not yet inserted. */
  ghost function Hand(s: State, p: nat): seq<Message> {
    if p < |s.clients| && MessageInHand(s.clients[p].pc).Some? then [MessageInHand(s.clients[p].pc).value] else []
  }

  /** The messages in the hands of the first `n` clients. */
  ghost function Hands(s: State, n: nat): multiset<Message> {
    if n == 0 then multiset{} else Hands(s, n - 1) + multiset(Hand(s, n - 1))
  }

  /** For every message that a run inserts, the client whose step inserts it. */
  ghost function Senders(cfg: Config, start: State, run: seq<Action>): seq<nat>
    requires Legal(cfg, start, run)
    decreases |run|
  {
    if run == [] then []
    else
      LastStep(cfg, start, run);
      var before, after := Exec(cfg, start, Rest(run)).shared.inserted, Exec(cfg, start, run).shared.inserted;
      Senders(cfg, start, Rest(run))
      + match Last(run) case StepClient(p) => if |before| < |after| then [p] else [] case _ => []
  }

  /** Those of the messages that come from one client. */
  function From(ms: seq<Message>, senders: seq<nat>, p: nat): seq<Message>
    requires |senders| == |ms|
  {
    if ms == [] then []
    else
      var n := |ms| - 1;
      From(ms[..n], senders[..n], p) + if senders[n] == p then [ms[n]] else []
  }

  lemma FromNext(ms: seq<Message>, senders: seq<nat>, m: Message, q: nat, p: nat)
    requires |senders| == |ms|
    ensures From(ms + [m], senders + [q], p) == From(ms, senders, p) + if q == p then [m] else []
  {
    assert (ms + [m])[..|ms|] == ms && (senders + [q])[..|ms|] == senders;
  }

  /** The three things that a step can do to messages: nothing, one is read, one is inserted. */
  ghost predicate Untouched(s: State, s': State) {
    s'.shared.inserted == s.shared.inserted && forall p: nat :: Hand(s', p) == Hand(s, p)
  }

  ghost predicate Taken(s: State, s': State, q: nat, m: Message) {
    && s'.shared.inserted == s.shared.inserted && Hand(s, q) == [] && Hand(s', q) == [m]
    && forall p: nat :: p != q ==> Hand(s', p) == Hand(s, p)
  }

  ghost predicate Queued(s: State, s': State, q: nat, m: Message) {
    && s'.shared.inserted == s.shared.inserted + [m] && Hand(s, q) == [m] && Hand(s', q) == []
    && forall p: nat :: p != q ==> Hand(s', p) == Hand(s, p)
  }

  lemma ClientMessageStep(cfg: Config, s: State, q: nat)
    requires Inv(cfg, s) && Enabled(cfg, s, StepClient(q))
    ensures var s' := Apply(cfg, s, StepClient(q));
            Untouched(s, s') || (Hand(s, q) != [] && Queued(s, s', q, Hand(s, q)[0]))
  {
    hide Inv;
    InsertingHasRoom(cfg, s, q);
  }

  lemma InsertingHasRoom(cfg: Config, s: State, q: nat)
    requires Inv(cfg, s) && q < |s.clients|
    ensures s.clients[q].pc.Inserting? ==> s.shared.queue.Valid() && !s.shared.queue.IsFull()
  {
    hide SharedInv, Held, ConsumerInv;
    SharedSizes(cfg, s.shared);
    assert ClientInv(cfg, s.shared, q, s.clients[q]);
  }

  lemma MessageStep(cfg: Config, s: State, a: Action)
    requires Inv(cfg, s) && Enabled(cfg, s, a)
    ensures var s' := Apply(cfg, s, a);
            match a
            case ReadMessage(q, m) => Taken(s, s', q, m)
            case StepClient(q) => Untouched(s, s') || (Hand(s, q) != [] && Queued(s, s', q, Hand(s, q)[0]))
            case _ => Untouched(s, s')
  {
    hide Inv;
    if a.StepClient? {
      ClientMessageStep(cfg, s, a.p);
    }
  }

  /** What was read of one client was inserted, but for the message in its hand, and in the same order. */
  ghost predicate InOrder(cfg: Config, start: State, run: seq<Action>, p: nat)
    requires Legal(cfg, start, run)
  {
    var s := Exec(cfg, start, run);
    && |Senders(cfg, start, run)| == |s.shared.inserted|
    && From(s.shared.inserted, Senders(cfg, start, run), p) + Hand(s, p) == ReadBy(run, p)
  }

  lemma {:induction false} ReadInOrder(cfg: Config, start: State, run: seq<Action>, p: nat)
    requires Init(cfg, start) && Legal(cfg, start, run)
    ensures InOrder(cfg, start, run, p)
    decreases |run|
  {
    if run != [] {
      hide *;
      LastStep(cfg, start, run);
      ReadInOrder(cfg, start, Rest(run), p);
      InitInv(cfg, start);
      RunKeepsInv(cfg, start, Rest(run));
      MessageStep(cfg, Exec(cfg, start, Rest(run)), Last(run));
      OrderStep(cfg, start, run, p);
    }
  }

  lemma OrderStep(cfg: Config, start: State, run: seq<Action>, p: nat)
    requires run != [] && Legal(cfg, start, run) && Legal(cfg, start, Rest(run))
    requires Exec(cfg, start, run) == Exec(cfg, start, run) && InOrder(cfg, start, Rest(run), p)
    requires var s, s' := Exec(cfg, start, Rest(run)), Exec(cfg, start, run);
             match Last(run)
             case ReadMessage(q, m) => Taken(s, s', q, m)
             case StepClient(q) => Untouched(s, s') || (Hand(s, q) != [] && Queued(s, s', q, Hand(s, q)[0]))
             case _ => Untouched(s, s')
    ensures InOrder(cfg, start, run, p)
  {
    hide Legal, Exec, Hand, Enabled, From;
    var s, s' := Exec(cfg, start, Rest(run)), Exec(cfg, start, run);
    var senders := Senders(cfg, start, Rest(run));
    var a := Last(run);
    assert ReadBy(run, p) == ReadBy(Rest(run), p) + if a.ReadMessage? && a.p == p then [a.m] else [];
    if a.StepClient? && !Untouched(s, s') {
      var m := Hand(s, a.p)[0];
      FromNext(s.shared.inserted, senders, m, a.p, p);
      assert Senders(cfg, start, run) == senders + [a.p];
      assert a.p == p ==> From(s.shared.inserted, senders, p) + [m] + [] == ReadBy(Rest(run), p);
    } else {
      assert Senders(cfg, start, run) == senders;
    }
  }

  // ---- No message is lost or invented ----

  lemma {:induction false} HandsStay(s: State, s': State, n: nat)
    requires forall p: nat :: p < n ==> Hand(s', p) == Hand(s, p)
    ensures Hands(s', n) == Hands(s, n)
  {
    if n > 0 {
      HandsStay(s, s', n - 1);
    }
  }

  lemma {:induction false} HandsChange(s: State, s': State, n: nat, q: nat)
    requires q < n && forall p: nat :: p != q ==> Hand(s', p) == Hand(s, p)
    ensures Hands(s', n) + multiset(Hand(s, q)) == Hands(s, n) + multiset(Hand(s', q))
  {
    hide Hand;
    if q < n - 1 {
      HandsChange(s, s', n - 1, q);
      Exchanged(Hands(s', n - 1), multiset(Hand(s', n - 1)), multiset(Hand(s, q)));
      Exchanged(Hands(s, n - 1), multiset(Hand(s, n - 1)), multiset(Hand(s', q)));
    } else {
      HandsStay(s, s', n - 1);
      Exchanged(Hands(s, n - 1), multiset(Hand(s', q)), multiset(Hand(s, q)));
    }
  }

  lemma Exchanged<T>(a: multiset<T>, b: multiset<T>, c: multiset<T>)
    ensures a + b + c == a + c + b
  {
  }

  /** Clients that did not come yet have nothing in their hands. */
  lemma {:induction false} HandsBeyond(s: State, n: nat)
    requires |s.clients| <= n
    ensures Hands(s, n) == Hands(s, |s.clients|)
    decreases n
  {
    hide Hand;
    if |s.clients| < n {
      HandsBeyond(s, n - 1);
      NobodysHand(s, n - 1);
    }
  }

  lemma NobodysHand(s: State, p: nat)
    requires |s.clients| <= p
    ensures Hand(s, p) == [] && multiset(Hand(s, p)) == multiset{}
  {
  }

  ghost function AllHands(s: State): multiset<Message> {
    Hands(s, |s.clients|)
  }

  lemma AllHandsStay(s: State, s': State)
    requires Untouched(s, s') && |s.clients| <= |s'.clients|
    ensures AllHands(s') == AllHands(s)
  {
    hide Hands, Hand;
    HandsStay(s, s', |s'.clients|);
    HandsBeyond(s, |s'.clients|);
  }

  /** Every message that was read was inserted or is still in the hands of its client. */
  ghost predicate AllAccounted(run: seq<Action>, s: State) {
    multiset(Read(run)) == multiset(s.shared.inserted) + AllHands(s)
  }

  lemma AccountStep(cfg: Config, run: seq<Action>, s: State, s': State)
    requires run != [] && AllAccounted(Rest(run), s) && |s.clients| <= |s'.clients|
    requires match Last(run)
             case ReadMessage(q, m) => q < |s.clients| && |s'.clients| == |s.clients| && Taken(s, s', q, m)
             case StepClient(q) =>
               && q < |s.clients| && |s'.clients| == |s.clients|
               && (Untouched(s, s') || (Hand(s, q) != [] && Queued(s, s', q, Hand(s, q)[0])))
             case _ => Untouched(s, s')
    ensures AllAccounted(run, s')
  {
    hide Hand, Hands;
    var a := Last(run);
    if Untouched(s, s') {
      AllHandsStay(s, s');
    } else {
      HandsChange(s, s', |s.clients|, a.p);
      if a.ReadMessage? {
        assert AllHands(s') == AllHands(s) + multiset{a.m};
        assert Read(run) == Read(Rest(run)) + [a.m];
      } else {
        var m := Hand(s, a.p)[0];
        assert AllHands(s') + multiset{m} == AllHands(s);
        assert Read(run) == Read(Rest(run));
        Exchanged(multiset(s.shared.inserted), multiset{m}, AllHands(s'));
      }
    }
  }

  lemma ClientsStay(cfg: Config, s: State, a: Action)
    requires Enabled(cfg, s, a)
    ensures |Apply(cfg, s, a).clients| == |s.clients| + if a.Connect? then 1 else 0
    ensures a.ReadMessage? || a.StepClient? ==> a.p < |s.clients|
  {
  }

  lemma {:induction false} ReadsAreAccounted(cfg: Config, start: State, run: seq<Action>)
    requires Init(cfg, start) && Legal(cfg, start, run)
    ensures AllAccounted(run, Exec(cfg, start, run))
    decreases |run|
  {
    if run == [] {

    } else {
      hide *;
      LastStep(cfg, start, run);
      ReadsAreAccounted(cfg, start, Rest(run));
      InitInv(cfg, start);
      RunKeepsInv(cfg, start, Rest(run));
      MessageStep(cfg, Exec(cfg, start, Rest(run)), Last(run));
      ClientsStay(cfg, Exec(cfg, start, Rest(run)), Last(run));
      AccountStep(cfg, run, Exec(cfg, start, Rest(run)), Exec(cfg, start, run));
    }
  }

  /**
   * Main result: of every client, the messages that the server inserts are the messages that it read from this client,
   * unchanged and in the order in which they were read, but for the last one, which the client's thread may still have in
   * hand; and all together, no message is lost and none is invented.
   */
  lemma ReadsAreInserted(cfg: Config, start: State, run: seq<Action>)
    requires Init(cfg, start) && Legal(cfg, start, run)
    ensures var s := Exec(cfg, start, run);
            && (forall p :: InOrder(cfg, start, run, p))
            && multiset(Read(run)) == multiset(s.shared.inserted) + AllHands(s)
  {
    hide InOrder, Exec;
    ReadsAreAccounted(cfg, start, run);
    forall p ensures InOrder(cfg, start, run, p) {
      ReadInOrder(cfg, start, run, p);
    }
  }

  lemma {:induction false} FromPrefix(ms: seq<Message>, senders: seq<nat>, p: nat, n: nat)
    requires |senders| == |ms| && n <= |ms|
    ensures From(ms[..n], senders[..n], p) <= From(ms, senders, p)
    decreases |ms|
  {
    if n < |ms| {
      FromPrefix(ms[..|ms| - 1], senders[..|ms| - 1], p, n);
      assert ms[..|ms| - 1][..n] == ms[..n] && senders[..|ms| - 1][..n] == senders[..n];
    } else {
      assert ms[..n] == ms && senders[..n] == senders;
    }
  }

  /** The messages of one client are fetched for delivery in the order in which they were read. */
  lemma FetchedInOrder(cfg: Config, start: State, run: seq<Action>, p: nat)
    requires Init(cfg, start) && Legal(cfg, start, run)
    ensures var s, senders := Exec(cfg, start, run), Senders(cfg, start, run);
            && |s.shared.jobs| <= |senders|
            && From(Popped(s.shared.jobs), senders[..|s.shared.jobs|], p) <= ReadBy(run, p)
  {
    hide Legal, Exec, Hand, Senders, Init, From;
    var s, senders := Exec(cfg, start, run), Senders(cfg, start, run);
    ReadInOrder(cfg, start, run, p);
    MessagesAreConserved(cfg, start, run);
    FromPrefix(s.shared.inserted, senders, p, |s.shared.jobs|);
    assert s.shared.inserted[..|s.shared.jobs|] == Popped(s.shared.jobs);
  }

  /** Main result: when the server can go no further, exactly the messages that were read were fanned out. */
  lemma StuckHasDelivered(cfg: Config, start: State, run: seq<Action>)
    requires cfg.consumers > 0 && cfg.capacity > 0
    requires Init(cfg, start) && Legal(cfg, start, run) && Stuck(cfg, Exec(cfg, start, run))
    ensures var sh := Exec(cfg, start, run).shared;
            && multiset(Read(run)) == multiset(Popped(sh.jobs))
            && forall k :: 0 <= k < |sh.jobs| ==> sh.jobs[k].finished
  {
    hide Legal, Exec, Hand, Hands, Init, NoLostWakeup, Stuck;
    var s := Exec(cfg, start, run);
    WakeupsAtStart(cfg, start);
    WakeupsAreNeverLost(cfg, start, run);
    StuckIsDrained(cfg, s);
    DrainedIsDelivered(cfg, s);
    ReadsAreAccounted(cfg, start, run);
    MessagesAreConserved(cfg, start, run);
    DrainedHands(s, |s.clients|);
    assert Popped(s.shared.jobs) + [] == Popped(s.shared.jobs);
  }

  lemma {:induction false} DrainedHands(s: State, n: nat)
    requires n <= |s.clients| && forall p :: 0 <= p < |s.clients| ==> MessageInHand(s.clients[p].pc).None?
    ensures Hands(s, n) == multiset{}
  {
    if n > 0 {
      DrainedHands(s, n - 1);
    }
  }

  // ---- Descriptors and group names ----

  /** The name that a client's thread has read and not yet counted. */
  function NameInHand(pc: ClientPc): Option<string> {
    match pc
    case LockJoin(name) => Some(name)
    case Scan(name, _) => Some(name)
    case Create(name) => Some(name)
    case Bump(name) => Some(name)
    case _ => None
  }

  function Slot(c: Client): (nat, nat) {
    (c.group, c.id)
  }

  /** A client has the slot of a join to the group it asked for, and the slot has its descriptor until it leaves. */
  ghost predicate ClientAsAsked(run: seq<Action>, p: nat, sh: Shared, c: Client) {
    && p < |Connected(run)| && c.fd == Connected(run)[p]
    && (NameInHand(c.pc).Some? ==> NameInHand(c.pc) == Asked(run, p))
    && (HasSlot(c.pc) ==> Asked(run, p).Some? && Join(Asked(run, p).value, c.group, c.id) in sh.joins)
    && (HasSlot(c.pc) && !c.pc.Store? ==> Slot(c) in sh.registered && sh.registered[Slot(c)] == c.fd)
    && (HasSlot(c.pc) ==> (c.pc.Gone? <==> Slot(c) in sh.left))
  }

  ghost predicate AsAsked(run: seq<Action>, s: State, p: nat)
    requires p < |s.clients|
  {
    ClientAsAsked(run, p, s.shared, s.clients[p])
  }

  /** No two clients have the same slot. */
  ghost predicate SlotsDiffer(s: State) {
    forall p, q :: 0 <= p < q < |s.clients| && HasSlot(s.clients[p].pc) && HasSlot(s.clients[q].pc) ==>
                     Slot(s.clients[p]) != Slot(s.clients[q])
  }

  ghost predicate Has(s: State, p: nat, x: (nat, nat)) {
    p < |s.clients| && HasSlot(s.clients[p].pc) && !s.clients[p].pc.Store? && Slot(s.clients[p]) == x
  }

  /** Every slot with a descriptor has a client. */
  ghost predicate SlotsAreHad(s: State) {
    forall x :: x in s.shared.registered ==> exists p: nat :: Has(s, p, x)
  }

  ghost predicate AllAsAsked(run: seq<Action>, s: State) {
    && |s.clients| == |Connected(run)| && SlotsDiffer(s) && SlotsAreHad(s)
    && forall p :: 0 <= p < |s.clients| ==> AsAsked(run, s, p)
  }

  /** A step of a client changes descriptors and departures at its own slot only, and joins only grow. */
  ghost predicate OnlyOwnSlot(sh: Shared, sh': Shared, c: Client, x: (nat, nat)) {
    && sh.joins <= sh'.joins
    && (!(HasSlot(c.pc) && x == Slot(c)) ==>
          && (x in sh'.registered <==> x in sh.registered) && (x in sh'.left <==> x in sh.left)
          && (x in sh.registered ==> sh'.registered[x] == sh.registered[x]))
  }

  lemma ClientStepStaysHome(cfg: Config, sh: Shared, p: nat, c: Client, x: (nat, nat))
    requires ClientCanStep(cfg, sh, c)
    ensures OnlyOwnSlot(sh, ClientStep(cfg, sh, p, c).0, c, x)
    ensures ClientStep(cfg, sh, p, c).1.fd == c.fd
    ensures HasSlot(c.pc) ==> HasSlot(ClientStep(cfg, sh, p, c).1.pc) && Slot(ClientStep(cfg, sh, p, c).1) == Slot(c)
  {
  }

  /** The client that steps. */
  lemma StepperAsAsked(cfg: Config, run: seq<Action>, s: State, p: nat)
    requires Inv(cfg, s) && Enabled(cfg, s, StepClient(p)) && AsAsked(run, s, p)
    ensures |Apply(cfg, s, StepClient(p)).clients| == |s.clients|
    ensures AsAsked(run, Apply(cfg, s, StepClient(p)), p)
  {
    hide Inv, ClientAsAsked, ClientStep, ClientCanStep, ClientInv, Sizes, Slots;
    ClientInvOf(cfg, s, p);
    ClientStepAsAsked(cfg, run, s.shared, p, s.clients[p]);
  }

  lemma ClientStepAsAsked(cfg: Config, run: seq<Action>, sh: Shared, p: nat, c: Client)
    requires Sizes(cfg, sh) && Slots(cfg, sh) && ClientInv(cfg, sh, p, c) && ClientCanStep(cfg, sh, c)
    requires ClientAsAsked(run, p, sh, c)
    ensures ClientAsAsked(run, p, ClientStep(cfg, sh, p, c).0, ClientStep(cfg, sh, p, c).1)
  {
    hide Asked, Connected;
  }

  lemma ClientInvOf(cfg: Config, s: State, p: nat)
    requires Inv(cfg, s) && p < |s.clients|
    ensures Sizes(cfg, s.shared) && Slots(cfg, s.shared) && ClientInv(cfg, s.shared, p, s.clients[p])
  {
  }

  /** A client that does not step. */
  lemma BystanderAsAsked(cfg: Config, run: seq<Action>, s: State, p: nat, q: nat)
    requires Enabled(cfg, s, StepClient(p)) && q < |s.clients| && p != q && AsAsked(run, s, q) && SlotsDiffer(s)
    ensures |Apply(cfg, s, StepClient(p)).clients| == |s.clients|
    ensures AsAsked(run, Apply(cfg, s, StepClient(p)), q)
  {
    ClientStepStaysHome(cfg, s.shared, p, s.clients[p], Slot(s.clients[q]));
    hide ClientStep, ClientCanStep, Asked, Connected;
  }

  /** A slot handed out now was not handed out before. */
  lemma StepperDiffers(cfg: Config, sh: Shared, p: nat, c: Client, q: nat, d: Client)
    requires Sizes(cfg, sh) && ClientInv(cfg, sh, p, c) && ClientInv(cfg, sh, q, d) && ClientCanStep(cfg, sh, c)
    requires HasSlot(c.pc) && HasSlot(d.pc) ==> Slot(c) != Slot(d)
    requires HasSlot(d.pc) && HasSlot(ClientStep(cfg, sh, p, c).1.pc)
    ensures Slot(ClientStep(cfg, sh, p, c).1) != Slot(d)
  {
  }

  lemma StepperIs(cfg: Config, s: State, p: nat)
    requires Enabled(cfg, s, StepClient(p))
    ensures p < |s.clients| == |Apply(cfg, s, StepClient(p)).clients| && ClientCanStep(cfg, s.shared, s.clients[p])
    ensures Apply(cfg, s, StepClient(p)).clients[p] == ClientStep(cfg, s.shared, p, s.clients[p]).1
  {
    hide ClientStep, ClientCanStep;
  }

  lemma OthersStay(cfg: Config, s: State, p: nat)
    requires Enabled(cfg, s, StepClient(p))
    ensures p < |s.clients| == |Apply(cfg, s, StepClient(p)).clients|
    ensures forall q :: 0 <= q < |s.clients| && q != p ==> Apply(cfg, s, StepClient(p)).clients[q] == s.clients[q]
  {
    hide ClientStep, ClientCanStep;
  }

  lemma StepKeepsSlots(cfg: Config, run: seq<Action>, s: State, p: nat)
    requires Inv(cfg, s) && Enabled(cfg, s, StepClient(p)) && AllAsAsked(run, s)
    ensures AllAsAsked(run, Apply(cfg, s, StepClient(p)))
  {
    hide Inv, Apply, ClientStep, ClientCanStep, Enabled, AsAsked, Has, HasSlot, Slot, Connected, ClientInv, Sizes, Slots;
    OthersStay(cfg, s, p);
    StepperIs(cfg, s, p);
    ClientInvOf(cfg, s, p);
    var s' := Apply(cfg, s, StepClient(p));
    StepperAsAsked(cfg, run, s, p);
    forall q | 0 <= q < |s'.clients| ensures AsAsked(run, s', q) {
      if q != p {
        BystanderAsAsked(cfg, run, s, p, q);
      }
    }
    forall q: nat | q < |s.clients| && q != p && HasSlot(s.clients[q].pc) && HasSlot(s'.clients[p].pc)
      ensures Slot(s'.clients[p]) != Slot(s.clients[q])
    {
      ClientInvOf(cfg, s, q);
      StepperDiffers(cfg, s.shared, p, s.clients[p], q, s.clients[q]);
    }
    forall x | x in s'.shared.registered ensures exists q: nat :: Has(s', q, x) {
      StillHad(cfg, s, p, x);
    }
  }

  lemma StillHad(cfg: Config, s: State, p: nat, x: (nat, nat))
    requires Enabled(cfg, s, StepClient(p)) && SlotsAreHad(s) && x in Apply(cfg, s, StepClient(p)).shared.registered
    ensures exists q: nat :: Has(Apply(cfg, s, StepClient(p)), q, x)
  {
    var s' := Apply(cfg, s, StepClient(p));
    if x in s.shared.registered {
      var q: nat :| Has(s, q, x);
      StillHas(cfg, s, p, q, x);
    } else {
      NowHas(cfg, s, p, x);
    }
  }

  lemma StillHas(cfg: Config, s: State, p: nat, q: nat, x: (nat, nat))
    requires Enabled(cfg, s, StepClient(p)) && Has(s, q, x)
    ensures Has(Apply(cfg, s, StepClient(p)), q, x)
  {
  }

  lemma NowHas(cfg: Config, s: State, p: nat, x: (nat, nat))
    requires Enabled(cfg, s, StepClient(p)) && x in Apply(cfg, s, StepClient(p)).shared.registered
    requires x !in s.shared.registered
    ensures Has(Apply(cfg, s, StepClient(p)), p, x)
  {
  }

  /** What the other steps leave of a client and of the slots. */
  lemma InputLeaves(cfg: Config, s: State, a: Action, p: nat)
    requires Enabled(cfg, s, a) && !a.StepClient? && p < |s.clients|
    ensures p < |Apply(cfg, s, a).clients|
    ensures var c, c', sh, sh' := s.clients[p], Apply(cfg, s, a).clients[p], s.shared, Apply(cfg, s, a).shared;
            && c'.fd == c.fd && Slot(c') == Slot(c)
            && HasSlot(c'.pc) == HasSlot(c.pc) && c'.pc.Store? == c.pc.Store? && c'.pc.Gone? == c.pc.Gone?
            && NameInHand(c'.pc) == (if a.ReadJoin? && a.p == p then Some(a.name) else NameInHand(c.pc))
            && (a.ReadJoin? && a.p == p ==> !HasSlot(c.pc))
            && sh'.joins == sh.joins && sh'.registered == sh.registered && sh'.left == sh.left
  {
  }

  /** The same client with the same slot, after more was read. */
  ghost predicate SameSlot(s: State, s': State, p: nat)
    requires p < |s.clients| && p < |s'.clients|
  {
    var c, c', sh, sh' := s.clients[p], s'.clients[p], s.shared, s'.shared;
    && c'.fd == c.fd && Slot(c') == Slot(c)
    && HasSlot(c'.pc) == HasSlot(c.pc) && c'.pc.Store? == c.pc.Store? && c'.pc.Gone? == c.pc.Gone?
    && sh'.joins == sh.joins && sh'.registered == sh.registered && sh'.left == sh.left
  }

  lemma MoreWasRead(run: seq<Action>, a: Action, s: State, s': State, p: nat)
    requires p < |s.clients| && p < |s'.clients| && SameSlot(s, s', p) && AsAsked(run, s, p)
    requires NameInHand(s'.clients[p].pc) == if a.ReadJoin? && a.p == p then Some(a.name)
                                             else NameInHand(s.clients[p].pc)
    requires a.ReadJoin? && a.p == p ==> !HasSlot(s.clients[p].pc)
    ensures AsAsked(run + [a], s', p)
  {
    hide Connected, Asked, HasSlot, NameInHand;
    OneMoreAction(run, a, p);
    var c' := s'.clients[p];
    assert p < |Connected(run + [a])| && c'.fd == Connected(run + [a])[p];
  }

  /** The other steps change no slot. */
  lemma InputAsAsked(cfg: Config, run: seq<Action>, s: State, a: Action, p: nat)
    requires Enabled(cfg, s, a) && !a.StepClient? && p < |s.clients| && AsAsked(run, s, p)
    ensures p < |Apply(cfg, s, a).clients| && AsAsked(run + [a], Apply(cfg, s, a), p)
  {
    hide Enabled, Apply, HasSlot, NameInHand, Slot, AsAsked;
    InputLeaves(cfg, s, a, p);
    MoreWasRead(run, a, s, Apply(cfg, s, a), p);
  }

  lemma OneMoreAction(run: seq<Action>, a: Action, p: nat)
    ensures Connected(run + [a]) == Connected(run) + if a.Connect? then [a.fd] else []
    ensures Asked(run + [a], p) == if a.ReadJoin? && a.p == p then Some(a.name) else Asked(run, p)
  {
    assert Rest(run + [a]) == run && Last(run + [a]) == a;
  }

  lemma NewcomerAsAsked(cfg: Config, run: seq<Action>, s: State, a: Action)
    requires Enabled(cfg, s, a) && |s.clients| == |Connected(run)|
    ensures var s' := Apply(cfg, s, a);
            && |s'.clients| == |Connected(run + [a])| == |s.clients| + (if a.Connect? then 1 else 0)
            && (a.Connect? ==> AsAsked(run + [a], s', |s.clients|) && !HasSlot(s'.clients[|s.clients|].pc))
  {
    hide ClientStep;
    assert Rest(run + [a]) == run && Last(run + [a]) == a;
  }

  lemma InputKeepsSlots(cfg: Config, run: seq<Action>, s: State, a: Action)
    requires Enabled(cfg, s, a) && !a.StepClient? && AllAsAsked(run, s)
    ensures AllAsAsked(run + [a], Apply(cfg, s, a))
  {
    hide Enabled, Apply, AsAsked, Slot, HasSlot, NameInHand, Connected;
    var s' := Apply(cfg, s, a);
    NewcomerAsAsked(cfg, run, s, a);
    forall p: nat | p < |s.clients| ensures AsAsked(run + [a], s', p) {
      InputAsAsked(cfg, run, s, a, p);
    }
    forall p: nat | p < |s.clients|
      ensures HasSlot(s'.clients[p].pc) == HasSlot(s.clients[p].pc) && Slot(s'.clients[p]) == Slot(s.clients[p])
    {
      InputLeaves(cfg, s, a, p);
    }
    forall x | x in s'.shared.registered ensures exists q: nat :: Has(s', q, x) {
      InputStillHad(cfg, s, a, x);
    }
  }

  lemma InputStillHad(cfg: Config, s: State, a: Action, x: (nat, nat))
    requires Enabled(cfg, s, a) && !a.StepClient? && SlotsAreHad(s) && x in Apply(cfg, s, a).shared.registered
    ensures exists q: nat :: Has(Apply(cfg, s, a), q, x)
  {
    hide Enabled, Apply, Slot, HasSlot, NameInHand;
    SameRegistered(cfg, s, a);
    var q: nat :| Has(s, q, x);
    InputLeaves(cfg, s, a, q);
    assert Has(Apply(cfg, s, a), q, x);
  }

  lemma SameRegistered(cfg: Config, s: State, a: Action)
    requires Enabled(cfg, s, a) && !a.StepClient?
    ensures Apply(cfg, s, a).shared.registered == s.shared.registered
  {
  }

  lemma {:induction false} RunKeepsSlots(cfg: Config, start: State, run: seq<Action>)
    requires Init(cfg, start) && Legal(cfg, start, run)
    ensures AllAsAsked(run, Exec(cfg, start, run))
    decreases |run|
  {
    if run == [] {
      NobodyAsked(cfg, start);
    } else {
      hide *;
      LastStep(cfg, start, run);
      RunKeepsSlots(cfg, start, Rest(run));
      InitInv(cfg, start);
      RunKeepsInv(cfg, start, Rest(run));
      SplitLast(run);
      var s, a := Exec(cfg, start, Rest(run)), Last(run);
      if a.StepClient? {
        StepKeepsSlots(cfg, Rest(run), s, a.p);
        ClientStepReadsNothing(Rest(run), Apply(cfg, s, a), a);
      } else {
        InputKeepsSlots(cfg, Rest(run), s, a);
      }
    }
  }

  lemma SplitLast(run: seq<Action>)
    requires run != []
    ensures run == Rest(run) + [Last(run)] && Rest(run) == run[..|run| - 1] && Last(run) == run[|run| - 1]
  {
  }

  lemma NobodyAsked(cfg: Config, start: State)
    requires Init(cfg, start)
    ensures AllAsAsked([], Exec(cfg, start, []))
  {
  }

  lemma ClientStepReadsNothing(run: seq<Action>, s: State, a: Action)
    requires a.StepClient? && AllAsAsked(run, s)
    ensures AllAsAsked(run + [a], s)
  {
    hide HasSlot, NameInHand, Slot, Connected, Asked, AsAsked;
    OneMoreAction(run, a, 0);
    assert Connected(run + [a]) == Connected(run);
    forall p: nat | p < |s.clients| ensures AsAsked(run + [a], s, p) {
      MoreWasRead(run, a, s, s, p);
    }
  }

  /**
   * Main result: a client that was counted has the group it asked for. Its slot holds 0 until the descriptor is stored,
   * then the descriptor with which this client came, and -1 once it has left.
   */
  lemma ClientsAreServedAsAsked(cfg: Config, start: State, run: seq<Action>, p: nat)
    requires Init(cfg, start) && Legal(cfg, start, run)
    requires p < |Exec(cfg, start, run).clients| && HasSlot(Exec(cfg, start, run).clients[p].pc)
    ensures var s := Exec(cfg, start, run);
            var c, sh := s.clients[p], s.shared;
            && p < |Connected(run)| && Asked(run, p).Some? && Join(Asked(run, p).value, c.group, c.id) in sh.joins
            && c.group < |sh.connections| && c.id < |sh.connections[c.group]|
            && sh.connections[c.group][c.id] == (if c.pc.Store? then 0 else if c.pc.Gone? then -1 else Connected(run)[p])
            && forall q :: 0 <= q < |s.clients| && q != p && HasSlot(s.clients[q].pc) ==> Slot(s.clients[q]) != Slot(c)
  {
    hide Init, Legal, Exec, Asked, Connected, HasSlot, Registry, Jobs, Conserved, MessagesOk, ConsumerInv, Held;
    RunKeepsSlots(cfg, start, run);
    InitInv(cfg, start);
    RunKeepsInv(cfg, start, run);
    ClientInvOf(cfg, Exec(cfg, start, run), p);
    assert AsAsked(run, Exec(cfg, start, run), p);
  }

  /** Every descriptor in a slot is that of a client which has this slot. */
  lemma DescriptorsHaveClients(cfg: Config, start: State, run: seq<Action>, x: (nat, nat))
    requires Init(cfg, start) && Legal(cfg, start, run) && x in Exec(cfg, start, run).shared.registered
    ensures var s := Exec(cfg, start, run);
            |s.clients| == |Connected(run)|
            && exists p: nat :: Has(s, p, x) && s.shared.registered[x] == Connected(run)[p]
  {
    hide Init, Legal, Exec, Asked, Connected, HasSlot;
    RunKeepsSlots(cfg, start, run);
    var s := Exec(cfg, start, run);
    var p: nat :| Has(s, p, x);
    assert AsAsked(run, s, p);
  }

  // ---- From one client to the others ----

  /** Message `k` was not yet fetched, or it was fetched when the slot was known. */
  ghost predicate KnownIfFetched(sh: Shared, k: nat, x: (nat, nat), fd: nat) {
    && x in sh.registered && sh.registered[x] == fd
    && (k < |sh.jobs| ==> x in sh.jobs[k].known && sh.jobs[k].known[x] == fd)
  }

  lemma StillKnown(cfg: Config, s: State, a: Action, k: nat, x: (nat, nat), fd: nat)
    requires Inv(cfg, s) && Enabled(cfg, s, a) && KnownIfFetched(s.shared, k, x, fd)
    ensures KnownIfFetched(Apply(cfg, s, a).shared, k, x, fd)
  {
    StepOnlyGrows(cfg, s, a);
    JobsKeepKnown(cfg, s, a, k);
    hide Inv, Enabled, Apply;
  }

  lemma JobsKeepKnown(cfg: Config, s: State, a: Action, k: nat)
    requires Enabled(cfg, s, a)
    ensures var sh, sh' := s.shared, Apply(cfg, s, a).shared;
            && (k < |sh.jobs| ==> k < |sh'.jobs| && sh'.jobs[k].known == sh.jobs[k].known)
            && (|sh.jobs| <= k < |sh'.jobs| ==> sh'.jobs[k].known == sh.registered)
  {
  }

  lemma {:induction false} KnownFromThenOn(cfg: Config, s: State, run: seq<Action>, k: nat, x: (nat, nat), fd: nat)
    requires Inv(cfg, s) && Legal(cfg, s, run) && KnownIfFetched(s.shared, k, x, fd)
    ensures KnownIfFetched(Exec(cfg, s, run).shared, k, x, fd)
    decreases |run|
  {
    if run != [] {
      hide Inv, Enabled, Apply, KnownIfFetched;
      StillKnown(cfg, s, run[0], k, x, fd);
      StepKeepsInv(cfg, s, run[0]);
      KnownFromThenOn(cfg, Apply(cfg, s, run[0]), run[1..], k, x, fd);
    }
  }

  /**
   * Main result: a client whose descriptor was stored before a message to its group was fetched, and that has not left
   * when the fan-out of the message is over, was written this message exactly once, to the descriptor with which it came -
   * unless the message carries the client's own number.
   */
  lemma MembersAreReached(cfg: Config, start: State, history: seq<Action>, run: seq<Action>, p: nat, k: nat)
    requires Init(cfg, start) && Legal(cfg, start, history) && Legal(cfg, Exec(cfg, start, history), run)
    requires var s := Exec(cfg, start, history);
             && p < |s.clients| && HasSlot(s.clients[p].pc) && !s.clients[p].pc.Store? && |s.shared.jobs| <= k
    requires var s, end := Exec(cfg, start, history), Exec(cfg, Exec(cfg, start, history), run);
             && k < |end.shared.jobs| && end.shared.jobs[k].finished
             && end.shared.jobs[k].msg.groupId == s.clients[p].group && end.shared.jobs[k].msg.id != s.clients[p].id
             && Slot(s.clients[p]) !in end.shared.left
    ensures var s, end := Exec(cfg, start, history), Exec(cfg, Exec(cfg, start, history), run);
            && p < |Connected(history)|
            && Count(end.shared.jobs[k].writes, s.clients[p].id) == 1
            && Write(s.clients[p].id, Connected(history)[p]) in end.shared.jobs[k].writes
  {
    hide Init, Legal, Exec, Asked, Connected, HasSlot, Inv, Count;
    var s, end := Exec(cfg, start, history), Exec(cfg, Exec(cfg, start, history), run);
    RunKeepsSlots(cfg, start, history);
    assert AsAsked(history, s, p);
    InitInv(cfg, start);
    RunKeepsInv(cfg, start, history);
    RunKeepsInv(cfg, s, run);
    KnownFromThenOn(cfg, s, run, k, Slot(s.clients[p]), Connected(history)[p]);
    JobIsOk(cfg, end, k);
    JobsAreExact(cfg, end, k);
  }
}
