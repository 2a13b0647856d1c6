/** What every step of the server keeps, whatever the interleaving: mutual exclusion, bounds, the queue guards,
    conservation of messages, the join registry and the progress of each fan-out. Each thread has a local
    invariant; a step of one thread is shown to leave the invariants of all others intact. */
module ServerSafety {
  import opened Common
  import opened CyclicQueue
  import opened ServerModel

  // ---- The shared state ----

  ghost predicate Sizes(cfg: Config, sh: Shared) {
    && sh.queue.Valid() && |sh.queue.slots| == cfg.capacity + 1
    && |sh.groupNames| == |sh.connectionCount| == |sh.connections| == cfg.maxGroups
    && (forall g :: 0 <= g < cfg.maxGroups ==> |sh.connections[g]| == cfg.maxGroupSize)
    && (forall g :: 0 <= g < cfg.maxGroups ==> sh.connectionCount[g] <= cfg.maxGroupSize)
    && sh.groupCount <= cfg.maxGroups
  }

  /** The messages popped so far, in order. */
  ghost function Popped(jobs: seq<Job>): (ms: seq<Message>) {
    seq(|jobs|, k requires 0 <= k < |jobs| => jobs[k].msg)
  }

  /** Nothing is lost, duplicated or reordered: insertions are the pops followed by what is still queued. */
  ghost predicate Conserved(sh: Shared)
    requires sh.queue.Valid()
  {
    sh.inserted == Popped(sh.jobs) + sh.queue.Items()
  }

  /** How many joins went to group `g`. */
  ghost function GroupSize(joins: seq<Join>, g: nat): nat {
    if joins == [] then 0
    else GroupSize(joins[..|joins| - 1], g) + if joins[|joins| - 1].group == g then 1 else 0
  }

  /** Group names are pairwise distinct, each join went to the group of its name, and its id is the number of
      earlier joins to that group. */
  ghost predicate Registry(cfg: Config, sh: Shared)
    requires Sizes(cfg, sh)
  {
    && (forall g, h :: 0 <= g < h < sh.groupCount ==> sh.groupNames[g] != sh.groupNames[h])
    && (forall j :: 0 <= j < |sh.joins| ==> sh.joins[j].group < sh.groupCount)
    && (forall j :: 0 <= j < |sh.joins| ==> sh.joins[j].name == sh.groupNames[sh.joins[j].group])
    && (forall j :: 0 <= j < |sh.joins| ==> sh.joins[j].id == GroupSize(sh.joins[..j], sh.joins[j].group))
    && (forall g :: 0 <= g < cfg.maxGroups ==> sh.connectionCount[g] == GroupSize(sh.joins, g))
  }

  /** A slot holds -1 once its client has left, else its client's descriptor once registered, else the initial 0. */
  ghost predicate Slots(cfg: Config, sh: Shared)
    requires Sizes(cfg, sh)
  {
    && sh.left <= sh.registered.Keys
    && (forall x :: x in sh.registered ==> x.0 < cfg.maxGroups && x.1 < sh.connectionCount[x.0])
    && (forall g, i :: 0 <= g < cfg.maxGroups && 0 <= i < cfg.maxGroupSize ==>
          sh.connections[g][i] ==
            if (g, i) in sh.left then -1 else if (g, i) in sh.registered then sh.registered[(g, i)] else 0)
  }

  // ---- Fan-out ----

  ghost predicate Increasing(ws: seq<Write>) {
    forall a, b :: 0 <= a < b < |ws| ==> ws[a].slot < ws[b].slot
  }

  /** Every slot below `bound` that was registered at the pop, is not the sender's and is not in `gone` was written. */
  ghost predicate Covered(job: Job, bound: nat, gone: set<(nat, nat)>) {
    forall i :: 0 <= i < bound && (job.msg.groupId, i) in job.known && i != job.msg.id
                && (job.msg.groupId, i) !in gone ==>
      Write(i, job.known[(job.msg.groupId, i)]) in job.writes
  }

  /** Each write went to a counted slot other than the sender's; the descriptor was the slot's own unless the
      slot was not yet stored (0) or was left between the test and the write (-1). */
  ghost predicate WriteOk(sh: Shared, job: Job, w: Write) {
    var g := job.msg.groupId;
    && g < |sh.connectionCount| && w.slot < sh.connectionCount[g] && w.slot != job.msg.id
    && (w.fd == 0 || w.fd == -1 || ((g, w.slot) in sh.registered && w.fd == sh.registered[(g, w.slot)]))
  }

  ghost predicate Extends(m: map<(nat, nat), nat>, m': map<(nat, nat), nat>) {
    forall x :: x in m ==> x in m' && m'[x] == m[x]
  }

  ghost predicate WritesOk(sh: Shared, job: Job) {
    && Increasing(job.writes)
    && Extends(job.known, sh.registered)
    && (forall w :: w in job.writes ==> WriteOk(sh, job, w))
  }

  /** The state of a fan-out that has dealt with the slots below `bound`. */
  ghost predicate Progress(sh: Shared, job: Job, bound: nat) {
    && WritesOk(sh, job)
    && (forall w :: w in job.writes ==> w.slot < bound)
    && Covered(job, bound, sh.left)
  }

  ghost predicate Finished(cfg: Config, sh: Shared, job: Job) {
    WritesOk(sh, job) && job.gone <= sh.left && Covered(job, cfg.maxGroupSize, job.gone)
  }

  ghost predicate Jobs(cfg: Config, sh: Shared) {
    && (forall k :: 0 <= k < |sh.jobs| ==> sh.jobs[k].holder < cfg.consumers)
    && (forall k :: 0 <= k < |sh.jobs| && sh.jobs[k].finished ==> Finished(cfg, sh, sh.jobs[k]))
  }

  ghost predicate MessagesOk(cfg: Config, sh: Shared) {
    forall i :: 0 <= i < |sh.inserted| ==> sh.inserted[i].groupId < cfg.maxGroups
  }

  ghost predicate SharedInv(cfg: Config, sh: Shared) {
    && Sizes(cfg, sh) && Conserved(sh) && MessagesOk(cfg, sh) && Registry(cfg, sh) && Slots(cfg, sh) && Jobs(cfg, sh)
  }

  // ---- The threads ----

  predicate ClientHoldsMessageLock(pc: ClientPc) {
    pc.CheckFull? || pc.Inserting? || pc.UnlockSend?
  }

  predicate ConsumerHoldsMessageLock(d: Consumer) {
    d.CheckEmpty? || d.Popping? || d.UnlockTake?
  }

  predicate HoldsJoinLock(pc: ClientPc) {
    pc.Scan? || pc.Create? || pc.Bump? || pc.Store? || pc.UnlockJoin?
  }

  /** The message a client thread has read and not yet inserted. */
  function MessageInHand(pc: ClientPc): Option<Message> {
    match pc
    case LockSend(m) => Some(m)
    case CheckFull(m, _) => Some(m)
    case WaitSpace(m) => Some(m)
    case WokenSpace(m) => Some(m)
    case Inserting(m, _) => Some(m)
    case _ => None
  }

  /** The client's join has been counted, so `group` and `id` name its slot. */
  predicate HasSlot(pc: ClientPc) {
    !(pc.AwaitJoin? || pc.LockJoin? || pc.Scan? || pc.Create? || pc.Bump?)
  }

  ghost predicate ClientInv(cfg: Config, sh: Shared, p: nat, c: Client)
    requires Sizes(cfg, sh)
  {
    && (ClientHoldsMessageLock(c.pc) <==> sh.messageLock == Some(ByClient(p)))
    && (HoldsJoinLock(c.pc) <==> sh.joinLock == Some(p))
    && (HasSlot(c.pc) ==> c.group < sh.groupCount && c.id < sh.connectionCount[c.group])
    && (HasSlot(c.pc) && !c.pc.Store? ==> (c.group, c.id) in sh.registered)
    && (MessageInHand(c.pc).Some? ==> MessageInHand(c.pc).value.groupId < cfg.maxGroups)
    && match c.pc {
         case Scan(name, i) => i <= sh.groupCount && NoGroupBelow(sh, i, name)
         case Create(name) => NoGroupBelow(sh, sh.groupCount, name)
         case Bump(name) => c.group < sh.groupCount && sh.groupNames[c.group] == name
         case Store => (c.group, c.id) !in sh.registered
         case Inserting(_, _) => !sh.queue.IsFull()
         case _ => true
       }
  }

  ghost predicate NoGroupBelow(sh: Shared, n: nat, name: string)
    requires n <= |sh.groupNames|
  {
    forall g :: 0 <= g < n ==> sh.groupNames[g] != name
  }

  /** The job a delivering thread is working on. */
  function JobOf(d: Consumer): Option<nat> {
    match d
    case UnlockTake(k) => Some(k)
    case SignalClient(k) => Some(k)
    case Test(k, _) => Some(k)
    case Visit(k, _) => Some(k)
    case Send(k, _) => Some(k)
    case _ => None
  }

  /** The slots below this one have been dealt with. */
  function Position(d: Consumer): nat {
    match d
    case Test(_, i) => i
    case Visit(_, i) => i
    case Send(_, i) => i
    case _ => 0
  }

  ghost predicate ConsumerInv(cfg: Config, sh: Shared, c: nat, d: Consumer)
    requires Sizes(cfg, sh)
  {
    && (ConsumerHoldsMessageLock(d) <==> sh.messageLock == Some(ByConsumer(c)))
    && (d.Popping? ==> !sh.queue.IsEmpty())
    && (JobOf(d).Some? ==>
          && JobOf(d).value < |sh.jobs|
          && var job := sh.jobs[JobOf(d).value];
          && job.holder == c && !job.finished && job.msg.groupId < cfg.maxGroups
          && Progress(sh, job, Position(d))
          && Position(d) <= cfg.maxGroupSize
          && (d.Visit? || d.Send? ==> Position(d) < sh.connectionCount[job.msg.groupId])
          && (d.Send? ==> d.i != job.msg.id))
  }

  /** Every unfinished job is in the hands of the thread that popped it, and lock owners exist. */
  ghost predicate Held(s: State) {
    && (forall k :: 0 <= k < |s.shared.jobs| && !s.shared.jobs[k].finished ==>
          s.shared.jobs[k].holder < |s.consumers| && JobOf(s.consumers[s.shared.jobs[k].holder]) == Some(k))
    && (s.shared.joinLock.Some? ==> s.shared.joinLock.value < |s.clients|)
    && (s.shared.messageLock.Some? ==>
          match s.shared.messageLock.value
          case ByClient(p) => p < |s.clients|
          case ByConsumer(c) => c < |s.consumers|)
  }

  ghost predicate Inv(cfg: Config, s: State) {
    && SharedInv(cfg, s.shared)
    && |s.consumers| == cfg.consumers
    && (forall p :: 0 <= p < |s.clients| ==> ClientInv(cfg, s.shared, p, s.clients[p]))
    && (forall c :: 0 <= c < |s.consumers| ==> ConsumerInv(cfg, s.shared, c, s.consumers[c]))
    && Held(s)
  }

  // ---- What a thread may rely on while another one steps ----

  ghost predicate Rely(sh: Shared, sh': Shared, t: Thread) {
    && (sh.messageLock == Some(t) <==> sh'.messageLock == Some(t))
    && (sh.messageLock == Some(t) ==> sh'.queue == sh.queue)
    && |sh.jobs| <= |sh'.jobs|
    && (forall k :: 0 <= k < |sh.jobs| && ByConsumer(sh.jobs[k].holder) == t ==> sh'.jobs[k] == sh.jobs[k])
    && Grows(sh, sh')
    && (t.ByClient? ==>
          && (sh.joinLock == Some(t.client) <==> sh'.joinLock == Some(t.client))
          && (sh.joinLock == Some(t.client) ==>
                sh'.groupNames == sh.groupNames && sh'.groupCount == sh.groupCount && sh'.registered == sh.registered))
  }

  /** Registered slots, left slots and counts only ever grow. */
  ghost predicate Grows(sh: Shared, sh': Shared) {
    && Extends(sh.registered, sh'.registered)
    && sh.left <= sh'.left
    && sh.groupCount <= sh'.groupCount
    && |sh.connectionCount| == |sh'.connectionCount|
    && (forall g :: 0 <= g < |sh.connectionCount| ==> sh.connectionCount[g] <= sh'.connectionCount[g])
  }

  lemma WritesOkStable(sh: Shared, sh': Shared, job: Job)
    requires WritesOk(sh, job) && Grows(sh, sh')
    ensures WritesOk(sh', job)
  {
    forall w | w in job.writes ensures WriteOk(sh', job, w) {
      assert WriteOk(sh, job, w);
    }
  }

  lemma ClientStable(cfg: Config, sh: Shared, sh': Shared, q: nat, d: Client)
    requires Sizes(cfg, sh) && Sizes(cfg, sh') && ClientInv(cfg, sh, q, d) && Rely(sh, sh', ByClient(q))
    ensures ClientInv(cfg, sh', q, d)
  {
  }

  lemma ConsumerStable(cfg: Config, sh: Shared, sh': Shared, c: nat, d: Consumer)
    requires Sizes(cfg, sh) && Sizes(cfg, sh') && ConsumerInv(cfg, sh, c, d) && Rely(sh, sh', ByConsumer(c))
    ensures ConsumerInv(cfg, sh', c, d)
  {
    if JobOf(d).Some? {
      WritesOkStable(sh, sh', sh.jobs[JobOf(d).value]);
    }
  }

  // ---- The steps of a client thread ----

  lemma ClientStepRely(cfg: Config, sh: Shared, p: nat, c: Client, t: Thread)
    requires Sizes(cfg, sh) && Slots(cfg, sh) && ClientInv(cfg, sh, p, c) && ClientCanStep(cfg, sh, c)
    requires t != ByClient(p)
    ensures Rely(sh, ClientStep(cfg, sh, p, c).0, t)
  {
  }

  lemma ClientStepSizes(cfg: Config, sh: Shared, p: nat, c: Client)
    requires Sizes(cfg, sh) && ClientInv(cfg, sh, p, c) && ClientCanStep(cfg, sh, c)
    ensures Sizes(cfg, ClientStep(cfg, sh, p, c).0)
  {
    if c.pc.Inserting? {
      InsertAppends(sh.queue, c.pc.m);
    }
  }

  lemma ClientStepConserves(cfg: Config, sh: Shared, p: nat, c: Client)
    requires SharedInv(cfg, sh) && ClientInv(cfg, sh, p, c) && ClientCanStep(cfg, sh, c)
    ensures var sh' := ClientStep(cfg, sh, p, c).0; sh'.queue.Valid() && Conserved(sh') && MessagesOk(cfg, sh')
  {
    if c.pc.Inserting? {
      InsertAppends(sh.queue, c.pc.m);
      var sh' := ClientStep(cfg, sh, p, c).0;
      assert Popped(sh'.jobs) + (sh.queue.Items() + [c.pc.m]) == (Popped(sh.jobs) + sh.queue.Items()) + [c.pc.m];
    }
  }

  lemma CreateKeepsRegistry(cfg: Config, sh: Shared, name: string)
    requires Sizes(cfg, sh) && Registry(cfg, sh) && sh.groupCount < |sh.groupNames|
    requires NoGroupBelow(sh, sh.groupCount, name)
    ensures var sh' := sh.(groupCount := sh.groupCount + 1, groupNames := sh.groupNames[sh.groupCount := name]);
            Sizes(cfg, sh') && Registry(cfg, sh')
  {
  }

  lemma BumpKeepsRegistry(cfg: Config, sh: Shared, name: string, g: nat)
    requires Sizes(cfg, sh) && Registry(cfg, sh) && g < sh.groupCount && sh.groupNames[g] == name
    requires sh.connectionCount[g] < cfg.maxGroupSize
    ensures var id := sh.connectionCount[g];
            var sh' := sh.(connectionCount := sh.connectionCount[g := id + 1], joins := sh.joins + [Join(name, g, id)]);
            Sizes(cfg, sh') && Registry(cfg, sh')
  {
    var joins' := sh.joins + [Join(name, g, sh.connectionCount[g])];
    assert joins'[..|sh.joins|] == sh.joins;
    assert forall j :: 0 <= j < |sh.joins| ==> joins'[..j] == sh.joins[..j];
    forall h | 0 <= h < cfg.maxGroups
      ensures GroupSize(joins', h) == sh.connectionCount[h] + if h == g then 1 else 0
    {
      assert joins'[|joins'| - 1].group == g;
    }
  }

  lemma ClientStepRegistry(cfg: Config, sh: Shared, p: nat, c: Client)
    requires SharedInv(cfg, sh) && ClientInv(cfg, sh, p, c) && ClientCanStep(cfg, sh, c)
    ensures var sh' := ClientStep(cfg, sh, p, c).0; Sizes(cfg, sh') && Registry(cfg, sh')
  {
    ClientStepSizes(cfg, sh, p, c);
    if c.pc.Create? {
      CreateKeepsRegistry(cfg, sh, c.pc.name);
    } else if c.pc.Bump? {
      BumpKeepsRegistry(cfg, sh, c.pc.name, c.group);
    } else {
      OtherStepRegistry(cfg, sh, p, c);
    }
  }

  lemma OtherStepRegistry(cfg: Config, sh: Shared, p: nat, c: Client)
    requires Sizes(cfg, sh) && Registry(cfg, sh) && ClientInv(cfg, sh, p, c) && ClientCanStep(cfg, sh, c)
    requires !c.pc.Create? && !c.pc.Bump? && Sizes(cfg, ClientStep(cfg, sh, p, c).0)
    ensures Registry(cfg, ClientStep(cfg, sh, p, c).0)
  {
    hide ClientInv, GroupSize;
    var sh' := ClientStep(cfg, sh, p, c).0;
    assert sh'.groupNames == sh.groupNames && sh'.groupCount == sh.groupCount && sh'.joins == sh.joins
           && sh'.connectionCount == sh.connectionCount;
  }

  lemma ClientStepSlots(cfg: Config, sh: Shared, p: nat, c: Client)
    requires SharedInv(cfg, sh) && ClientInv(cfg, sh, p, c) && ClientCanStep(cfg, sh, c)
    ensures var sh' := ClientStep(cfg, sh, p, c).0; Sizes(cfg, sh') && Slots(cfg, sh')
  {
    hide Conserved, Registry, Jobs, MessagesOk, NoGroupBelow, Ring.Items, Ring.IsFull, Ring.Insert;
    ClientStepSizes(cfg, sh, p, c);
  }

  lemma ClientStepJobs(cfg: Config, sh: Shared, p: nat, c: Client)
    requires SharedInv(cfg, sh) && ClientInv(cfg, sh, p, c) && ClientCanStep(cfg, sh, c)
    ensures Jobs(cfg, ClientStep(cfg, sh, p, c).0)
  {
    var sh' := ClientStep(cfg, sh, p, c).0;
    assert sh'.jobs == sh.jobs;
    assert Grows(sh, sh') by {
      ClientStepRely(cfg, sh, p, c, ByConsumer(0));
    }
    forall k | 0 <= k < |sh.jobs| && sh.jobs[k].finished ensures Finished(cfg, sh', sh.jobs[k]) {
      WritesOkStable(sh, sh', sh.jobs[k]);
    }
  }

  lemma JoinStepOwn(cfg: Config, sh: Shared, p: nat, c: Client)
    requires Sizes(cfg, sh) && Slots(cfg, sh) && ClientInv(cfg, sh, p, c) && ClientCanStep(cfg, sh, c)
    requires c.pc.LockJoin? || HoldsJoinLock(c.pc)
    ensures var (sh', c') := ClientStep(cfg, sh, p, c); Sizes(cfg, sh') && ClientInv(cfg, sh', p, c')
  {
    ClientStepSizes(cfg, sh, p, c);
    if c.pc.Scan? {
      var (sh', c') := ClientStep(cfg, sh, p, c);
      assert ClientInv(cfg, sh', p, c');
    }
  }

  lemma SendStepOwn(cfg: Config, sh: Shared, p: nat, c: Client)
    requires Sizes(cfg, sh) && Slots(cfg, sh) && ClientInv(cfg, sh, p, c) && ClientCanStep(cfg, sh, c)
    requires !c.pc.LockJoin? && !HoldsJoinLock(c.pc)
    ensures var (sh', c') := ClientStep(cfg, sh, p, c); Sizes(cfg, sh') && ClientInv(cfg, sh', p, c')
  {
    hide NoGroupBelow, Slots, Ring.Insert, Ring.Items, Ring.IsFull;
    ClientStepSizes(cfg, sh, p, c);
  }

  lemma ClientStepOwn(cfg: Config, sh: Shared, p: nat, c: Client)
    requires Sizes(cfg, sh) && Slots(cfg, sh) && ClientInv(cfg, sh, p, c) && ClientCanStep(cfg, sh, c)
    ensures var (sh', c') := ClientStep(cfg, sh, p, c); Sizes(cfg, sh') && ClientInv(cfg, sh', p, c')
  {
    hide *;
    if c.pc.LockJoin? || HoldsJoinLock(c.pc) {
      JoinStepOwn(cfg, sh, p, c);
    } else {
      SendStepOwn(cfg, sh, p, c);
    }
  }

  lemma ClientStepShared(cfg: Config, sh: Shared, p: nat, c: Client)
    requires SharedInv(cfg, sh) && ClientInv(cfg, sh, p, c) && ClientCanStep(cfg, sh, c)
    ensures SharedInv(cfg, ClientStep(cfg, sh, p, c).0)
  {
    ClientStepConserves(cfg, sh, p, c);
    ClientStepRegistry(cfg, sh, p, c);
    ClientStepSlots(cfg, sh, p, c);
    ClientStepJobs(cfg, sh, p, c);
  }

  // ---- The steps of a delivering thread ----

  lemma ConsumerStepRely(cfg: Config, sh: Shared, c: nat, d: Consumer, t: Thread)
    requires Sizes(cfg, sh) && ConsumerInv(cfg, sh, c, d) && ConsumerCanStep(sh, d)
    requires t != ByConsumer(c)
    ensures Rely(sh, ConsumerStep(sh, c, d).0, t)
  {
  }

  /** The shared state after a pop. */
  ghost function AfterPop(sh: Shared, c: nat): Shared
    requires sh.queue.Valid()
  {
    var job := Job(sh.queue.slots[sh.queue.l], c, sh.registered, [], false, {});
    sh.(queue := sh.queue.Pop(), jobs := sh.jobs + [job])
  }

  lemma PopConserves(cfg: Config, sh: Shared, c: nat)
    requires sh.queue.Valid() && Conserved(sh) && MessagesOk(cfg, sh) && !sh.queue.IsEmpty()
    ensures AfterPop(sh, c).queue.Valid() && |AfterPop(sh, c).queue.slots| == |sh.queue.slots|
    ensures Conserved(AfterPop(sh, c)) && sh.queue.slots[sh.queue.l].groupId < cfg.maxGroups
  {
    hide Ring.Items, Ring.Pop, Ring.IsEmpty;
    PopRemoves(sh.queue);
    var sh', m := AfterPop(sh, c), sh.queue.slots[sh.queue.l];
    assert Popped(sh'.jobs) == Popped(sh.jobs) + [m];
    assert Popped(sh.jobs) + ([m] + sh'.queue.Items()) == Popped(sh'.jobs) + sh'.queue.Items();
    assert sh.inserted[|sh.jobs|] == m;
  }

  lemma PopKeepsRest(cfg: Config, sh: Shared, sh': Shared, c: nat)
    requires SharedInv(cfg, sh) && c < cfg.consumers
    requires sh' == sh.(queue := sh'.queue, jobs := sh'.jobs) && |sh'.jobs| == |sh.jobs| + 1
    requires sh'.jobs[..|sh.jobs|] == sh.jobs && sh'.jobs[|sh.jobs|].holder == c && !sh'.jobs[|sh.jobs|].finished
    requires sh'.queue.Valid() && |sh'.queue.slots| == cfg.capacity + 1 && Conserved(sh')
    ensures SharedInv(cfg, sh')
  {
    hide Ring.Items, Ring.Valid, Conserved, GroupSize, WritesOk;
    forall k | 0 <= k < |sh.jobs| ensures sh'.jobs[k] == sh.jobs[k] {
      assert sh'.jobs[k] == sh'.jobs[..|sh.jobs|][k];
    }
    assert Grows(sh, sh');
    forall k | 0 <= k < |sh'.jobs| && sh'.jobs[k].finished ensures Finished(cfg, sh', sh'.jobs[k]) {
      WritesOkStable(sh, sh', sh.jobs[k]);
    }
  }

  lemma PopKeepsShared(cfg: Config, sh: Shared, c: nat)
    requires SharedInv(cfg, sh) && c < cfg.consumers && !sh.queue.IsEmpty()
    ensures SharedInv(cfg, ConsumerStep(sh, c, Popping(false)).0)
    ensures sh.queue.slots[sh.queue.l].groupId < cfg.maxGroups
  {
    hide Ring.Items, Ring.Pop, Ring.IsEmpty, Conserved, Registry, Slots, Jobs, MessagesOk;
    PopConserves(cfg, sh, c);
    PopKeepsRest(cfg, sh, AfterPop(sh, c), c);
  }

  /** Changing what a job records about its writes leaves everything else as it is. */
  lemma JobUpdateKeepsShared(cfg: Config, sh: Shared, k: nat, job: Job)
    requires SharedInv(cfg, sh) && k < |sh.jobs| && job.msg == sh.jobs[k].msg && job.holder == sh.jobs[k].holder
    requires job.finished ==> Finished(cfg, sh, job)
    ensures SharedInv(cfg, sh.(jobs := sh.jobs[k := job]))
  {
    var sh' := sh.(jobs := sh.jobs[k := job]);
    assert Popped(sh'.jobs) == Popped(sh.jobs);
    forall j | 0 <= j < |sh'.jobs| && sh'.jobs[j].finished ensures Finished(cfg, sh', sh'.jobs[j]) {
      WritesOkStable(sh, sh', sh'.jobs[j]);
    }
  }

  /** When the loop's test fails, every slot registered at the pop lies below the position reached. */
  lemma EndOfLoop(cfg: Config, sh: Shared, job: Job, i: nat)
    requires SharedInv(cfg, sh) && job.msg.groupId < cfg.maxGroups && Progress(sh, job, i)
    requires i >= sh.connectionCount[job.msg.groupId]
    ensures Finished(cfg, sh, job.(finished := true, gone := sh.left))
  {
    var done := job.(finished := true, gone := sh.left);
    forall w | w in done.writes ensures WriteOk(sh, done, w) {
      assert WriteOk(sh, job, w);
    }
  }

  /** One write: the slot is beyond all earlier ones, and a slot known and not left gets its own descriptor. */
  lemma WriteProgresses(cfg: Config, sh: Shared, job: Job, i: nat)
    requires SharedInv(cfg, sh) && job.msg.groupId < cfg.maxGroups && Progress(sh, job, i)
    requires i < sh.connectionCount[job.msg.groupId] && i != job.msg.id
    ensures Progress(sh, job.(writes := job.writes + [Write(i, sh.connections[job.msg.groupId][i])]), i + 1)
  {
    var g := job.msg.groupId;
    var job' := job.(writes := job.writes + [Write(i, sh.connections[g][i])]);
    forall w | w in job'.writes ensures WriteOk(sh, job', w) {
      assert w in job.writes ==> WriteOk(sh, job, w);
    }
    forall j | 0 <= j < i + 1 && (g, j) in job.known && j != job.msg.id && (g, j) !in sh.left
      ensures Write(j, job.known[(g, j)]) in job'.writes
    {
      if j < i {
        assert Write(j, job.known[(g, j)]) in job.writes;
      } else {
        assert job'.writes[|job.writes|] == Write(j, job.known[(g, j)]);
      }
    }
  }

  lemma ConsumerStepShared(cfg: Config, sh: Shared, c: nat, d: Consumer)
    requires SharedInv(cfg, sh) && c < cfg.consumers && ConsumerInv(cfg, sh, c, d) && ConsumerCanStep(sh, d)
    ensures SharedInv(cfg, ConsumerStep(sh, c, d).0)
  {
    var sh' := ConsumerStep(sh, c, d).0;
    if d.Popping? {
      PopKeepsShared(cfg, sh, c);
    } else if d.Send? || sh'.jobs != sh.jobs {
      if d.Test? {
        EndOfLoop(cfg, sh, sh.jobs[d.job], d.i);
      }
      JobUpdateKeepsShared(cfg, sh, d.job, sh'.jobs[d.job]);
    } else {
      LockKeepsShared(cfg, sh, sh'.messageLock);
    }
  }

  lemma LockKeepsShared(cfg: Config, sh: Shared, lock: Option<Thread>)
    requires SharedInv(cfg, sh)
    ensures SharedInv(cfg, sh.(messageLock := lock))
  {
    forall k | 0 <= k < |sh.jobs| && sh.jobs[k].finished
      ensures Finished(cfg, sh.(messageLock := lock), sh.jobs[k])
    {
      WritesOkStable(sh, sh.(messageLock := lock), sh.jobs[k]);
    }
  }

  lemma VisitKeepsProgress(cfg: Config, sh: Shared, job: Job, i: nat)
    requires SharedInv(cfg, sh) && job.msg.groupId < cfg.maxGroups && Progress(sh, job, i) && i < cfg.maxGroupSize
    requires i == job.msg.id || sh.connections[job.msg.groupId][i] == -1
    ensures Progress(sh, job, i + 1)
  {
  }

  lemma PopOwn(cfg: Config, sh: Shared, c: nat, d: Consumer)
    requires SharedInv(cfg, sh) && c < cfg.consumers && ConsumerInv(cfg, sh, c, d) && ConsumerCanStep(sh, d)
    requires d.Popping? && Sizes(cfg, ConsumerStep(sh, c, d).0)
    ensures var (sh', d') := ConsumerStep(sh, c, d); ConsumerInv(cfg, sh', c, d')
  {
    hide Registry, Conserved, Jobs, MessagesOk, Ring.Items, Ring.Pop;
    PopKeepsShared(cfg, sh, c);
  }

  lemma SendOwn(cfg: Config, sh: Shared, c: nat, d: Consumer)
    requires SharedInv(cfg, sh) && c < cfg.consumers && ConsumerInv(cfg, sh, c, d) && ConsumerCanStep(sh, d)
    requires d.Send? && Sizes(cfg, ConsumerStep(sh, c, d).0)
    ensures var (sh', d') := ConsumerStep(sh, c, d); ConsumerInv(cfg, sh', c, d')
  {
    hide Registry, Conserved, Jobs, MessagesOk, Slots, WritesOk;
    var sh' := ConsumerStep(sh, c, d).0;
    WriteProgresses(cfg, sh, sh.jobs[d.job], d.i);
    assert Grows(sh, sh');
    ProgressStable(sh, sh', sh'.jobs[d.job], d.i + 1);
  }

  lemma ProgressStable(sh: Shared, sh': Shared, job: Job, i: nat)
    requires Progress(sh, job, i) && Grows(sh, sh')
    ensures Progress(sh', job, i)
  {
    WritesOkStable(sh, sh', job);
  }

  lemma GoOnOwn(cfg: Config, sh: Shared, c: nat, d: Consumer)
    requires SharedInv(cfg, sh) && c < cfg.consumers && ConsumerInv(cfg, sh, c, d) && ConsumerCanStep(sh, d)
    requires !d.Popping? && !d.Send? && Sizes(cfg, ConsumerStep(sh, c, d).0)
    ensures var (sh', d') := ConsumerStep(sh, c, d); ConsumerInv(cfg, sh', c, d')
  {
    hide Registry, Conserved, Jobs, MessagesOk, Slots, Progress, SharedInv, Ring.Items;
    SharedSizes(cfg, sh);
    var (sh', d') := ConsumerStep(sh, c, d);
    if JobOf(d).Some? {
      var k := JobOf(d).value;
      if d.UnlockTake? {
        ProgressStable(sh, sh', sh.jobs[k], 0);
      } else if d.Visit? && d'.Test? {
        VisitKeepsProgress(cfg, sh, sh.jobs[k], d.i);
      }
    }
  }

  lemma ConsumerStepOwn(cfg: Config, sh: Shared, c: nat, d: Consumer)
    requires SharedInv(cfg, sh) && c < cfg.consumers && ConsumerInv(cfg, sh, c, d) && ConsumerCanStep(sh, d)
    ensures var (sh', d') := ConsumerStep(sh, c, d); Sizes(cfg, sh') && ConsumerInv(cfg, sh', c, d')
  {
    hide *;
    ConsumerStepShared(cfg, sh, c, d);
    SharedSizes(cfg, ConsumerStep(sh, c, d).0);
    if d.Popping? {
      PopOwn(cfg, sh, c, d);
    } else if d.Send? {
      SendOwn(cfg, sh, c, d);
    } else {
      GoOnOwn(cfg, sh, c, d);
    }
  }

  // ---- All steps ----

  lemma ClientStepKeepsOthers(cfg: Config, s: State, p: nat)
    requires Inv(cfg, s) && Enabled(cfg, s, StepClient(p)) && Sizes(cfg, Apply(cfg, s, StepClient(p)).shared)
    ensures var s' := Apply(cfg, s, StepClient(p));
            && (forall q :: 0 <= q < |s.clients| && q != p ==> ClientInv(cfg, s'.shared, q, s.clients[q]))
            && (forall e :: 0 <= e < |s.consumers| ==> ConsumerInv(cfg, s'.shared, e, s.consumers[e]))
            && s'.shared.jobs == s.shared.jobs
  {
    var sh, c := s.shared, s.clients[p];
    var sh' := Apply(cfg, s, StepClient(p)).shared;
    forall q | 0 <= q < |s.clients| && q != p ensures ClientInv(cfg, sh', q, s.clients[q]) {
      ClientStepRely(cfg, sh, p, c, ByClient(q));
      ClientStable(cfg, sh, sh', q, s.clients[q]);
    }
    forall e | 0 <= e < |s.consumers| ensures ConsumerInv(cfg, sh', e, s.consumers[e]) {
      ClientStepRely(cfg, sh, p, c, ByConsumer(e));
      ConsumerStable(cfg, sh, sh', e, s.consumers[e]);
    }
  }

  lemma SharedSizes(cfg: Config, sh: Shared)
    requires SharedInv(cfg, sh)
    ensures Sizes(cfg, sh) && Slots(cfg, sh)
  {
  }

  lemma ClientStepKeepsInv(cfg: Config, s: State, p: nat)
    requires Inv(cfg, s) && Enabled(cfg, s, StepClient(p))
    ensures Inv(cfg, Apply(cfg, s, StepClient(p)))
  {
    hide SharedInv, ClientInv, ConsumerInv, Held, ClientStep, ClientCanStep;
    SharedSizes(cfg, s.shared);
    ClientStepShared(cfg, s.shared, p, s.clients[p]);
    ClientStepOwn(cfg, s.shared, p, s.clients[p]);
    ClientStepKeepsOthers(cfg, s, p);
    ClientStepKeepsHeld(cfg, s, p);
  }

  lemma ClientStepLocks(cfg: Config, sh: Shared, p: nat, c: Client)
    requires ClientCanStep(cfg, sh, c)
    ensures var sh' := ClientStep(cfg, sh, p, c).0;
            && sh'.jobs == sh.jobs
            && (sh'.messageLock == sh.messageLock || sh'.messageLock in {None, Some(ByClient(p))})
            && (sh'.joinLock == sh.joinLock || sh'.joinLock in {None, Some(p)})
  {
  }

  lemma ClientStepKeepsHeld(cfg: Config, s: State, p: nat)
    requires Inv(cfg, s) && Enabled(cfg, s, StepClient(p))
    ensures Held(Apply(cfg, s, StepClient(p)))
  {
    ClientStepLocks(cfg, s.shared, p, s.clients[p]);
  }

  lemma ConsumerStepKeepsOthers(cfg: Config, s: State, c: nat)
    requires Inv(cfg, s) && Enabled(cfg, s, StepConsumer(c)) && Sizes(cfg, Apply(cfg, s, StepConsumer(c)).shared)
    ensures var s' := Apply(cfg, s, StepConsumer(c));
            && (forall q :: 0 <= q < |s.clients| ==> ClientInv(cfg, s'.shared, q, s.clients[q]))
            && (forall e :: 0 <= e < |s.consumers| && e != c ==> ConsumerInv(cfg, s'.shared, e, s.consumers[e]))
  {
    var sh, d := s.shared, s.consumers[c];
    var sh' := Apply(cfg, s, StepConsumer(c)).shared;
    forall q | 0 <= q < |s.clients| ensures ClientInv(cfg, sh', q, s.clients[q]) {
      ConsumerStepRely(cfg, sh, c, d, ByClient(q));
      ClientStable(cfg, sh, sh', q, s.clients[q]);
    }
    forall e | 0 <= e < |s.consumers| && e != c ensures ConsumerInv(cfg, sh', e, s.consumers[e]) {
      ConsumerStepRely(cfg, sh, c, d, ByConsumer(e));
      ConsumerStable(cfg, sh, sh', e, s.consumers[e]);
    }
  }

  lemma ConsumerStepKeepsInv(cfg: Config, s: State, c: nat)
    requires Inv(cfg, s) && Enabled(cfg, s, StepConsumer(c))
    ensures Inv(cfg, Apply(cfg, s, StepConsumer(c)))
  {
    hide SharedInv, ClientInv, ConsumerInv, Held, ConsumerStep, ConsumerCanStep;
    SharedSizes(cfg, s.shared);
    ConsumerStepShared(cfg, s.shared, c, s.consumers[c]);
    ConsumerStepOwn(cfg, s.shared, c, s.consumers[c]);
    ConsumerStepKeepsOthers(cfg, s, c);
    ConsumerStepHeld(cfg, s, c);
  }

  lemma ConsumerStepHeld(cfg: Config, s: State, c: nat)
    requires Inv(cfg, s) && Enabled(cfg, s, StepConsumer(c))
    ensures Held(Apply(cfg, s, StepConsumer(c)))
  {
    hide SharedInv, ClientInv, ConsumerInv, ConsumerStep, ConsumerCanStep, JobOf;
    SharedSizes(cfg, s.shared);
    ConsumerStepJobs(cfg, s.shared, c, s.consumers[c]);
  }

  /** What a step of a delivering thread does to the jobs and the locks. */
  lemma ConsumerStepJobs(cfg: Config, sh: Shared, c: nat, d: Consumer)
    requires Sizes(cfg, sh) && ConsumerInv(cfg, sh, c, d) && ConsumerCanStep(sh, d)
    ensures var (sh', d') := ConsumerStep(sh, c, d);
            && |sh.jobs| <= |sh'.jobs|
            && (forall k :: 0 <= k < |sh.jobs| && JobOf(d) != Some(k) ==> sh'.jobs[k] == sh.jobs[k])
            && (forall k :: 0 <= k < |sh'.jobs| && (k >= |sh.jobs| || JobOf(d) == Some(k)) ==>
                  sh'.jobs[k].holder == c && (sh'.jobs[k].finished || JobOf(d') == Some(k)))
            && (sh'.messageLock == sh.messageLock || sh'.messageLock in {None, Some(ByConsumer(c))})
            && sh'.joinLock == sh.joinLock
  {
    hide Progress, Ring.IsEmpty, Ring.Pop, Ring.Items;
  }

  /** The moves of a client thread that touch no shared state: input, being woken, and going on after a signal. */
  ghost predicate ClientMove(cfg: Config, pc: ClientPc, pc': ClientPc) {
    || (pc.AwaitJoin? && pc'.LockJoin?)
    || (pc.AwaitMessage? && (pc'.Leaving? || (pc'.LockSend? && pc'.m.groupId < cfg.maxGroups)))
    || (pc.WaitSpace? && pc' == WokenSpace(pc.m))
    || (pc.SignalConsumer? && pc'.AwaitMessage?)
  }

  ghost predicate ConsumerMove(d: Consumer, d': Consumer) {
    (d.WaitMessage? && d'.WokenMessage?) || (d.SignalClient? && d' == Test(d.job, 0))
  }

  /** Every thread stays where it is or makes such a move; new clients may appear. */
  ghost predicate OnlyMoves(cfg: Config, s: State, s': State) {
    && s'.shared == s.shared && |s'.consumers| == |s.consumers| && |s.clients| <= |s'.clients|
    && (forall p :: 0 <= p < |s.clients| ==>
          s'.clients[p] == s.clients[p]
          || (ClientMove(cfg, s.clients[p].pc, s'.clients[p].pc)
              && s'.clients[p] == s.clients[p].(pc := s'.clients[p].pc)))
    && (forall p :: |s.clients| <= p < |s'.clients| ==> s'.clients[p].pc.AwaitJoin?)
    && (forall c :: 0 <= c < |s.consumers| ==>
          s'.consumers[c] == s.consumers[c] || ConsumerMove(s.consumers[c], s'.consumers[c]))
  }

  /** Input, spurious wake-ups and signals only move threads. */
  lemma OtherStepMoves(cfg: Config, s: State, a: Action)
    requires Enabled(cfg, s, a) && !a.StepClient? && !a.StepConsumer?
    ensures OnlyMoves(cfg, s, Apply(cfg, s, a))
  {
  }

  lemma ClientMoveKeepsInv(cfg: Config, sh: Shared, p: nat, c: Client, c': Client)
    requires Sizes(cfg, sh) && ClientInv(cfg, sh, p, c) && ClientMove(cfg, c.pc, c'.pc) && c' == c.(pc := c'.pc)
    ensures ClientInv(cfg, sh, p, c')
  {
  }

  lemma ConsumerMoveKeepsInv(cfg: Config, sh: Shared, c: nat, d: Consumer, d': Consumer)
    requires Sizes(cfg, sh) && ConsumerInv(cfg, sh, c, d) && ConsumerMove(d, d')
    ensures ConsumerInv(cfg, sh, c, d') && JobOf(d') == JobOf(d)
  {
    hide Progress;
  }

  lemma NewClientInv(cfg: Config, s: State, s': State, p: nat)
    requires Sizes(cfg, s.shared) && Held(s) && |s.clients| <= p < |s'.clients| && s'.clients[p].pc.AwaitJoin?
    ensures ClientInv(cfg, s.shared, p, s'.clients[p])
  {
  }

  lemma MovesKeepInv(cfg: Config, s: State, s': State)
    requires Inv(cfg, s) && OnlyMoves(cfg, s, s')
    ensures Inv(cfg, s')
  {
    hide SharedInv, ClientInv, ConsumerInv, ClientMove, ConsumerMove;
    var sh := s.shared;
    SharedSizes(cfg, sh);
    forall p | 0 <= p < |s'.clients| ensures ClientInv(cfg, sh, p, s'.clients[p]) {
      if p >= |s.clients| {
        NewClientInv(cfg, s, s', p);
      } else if s'.clients[p] != s.clients[p] {
        ClientMoveKeepsInv(cfg, sh, p, s.clients[p], s'.clients[p]);
      }
    }
    forall c | 0 <= c < |s.consumers|
      ensures ConsumerInv(cfg, sh, c, s'.consumers[c]) && JobOf(s'.consumers[c]) == JobOf(s.consumers[c])
    {
      if s'.consumers[c] != s.consumers[c] {
        ConsumerMoveKeepsInv(cfg, sh, c, s.consumers[c], s'.consumers[c]);
      }
    }
  }

  lemma StepKeepsInv(cfg: Config, s: State, a: Action)
    requires Inv(cfg, s) && Enabled(cfg, s, a)
    ensures Inv(cfg, Apply(cfg, s, a))
  {
    if a.StepClient? {
      ClientStepKeepsInv(cfg, s, a.p);
    } else if a.StepConsumer? {
      ConsumerStepKeepsInv(cfg, s, a.c);
    } else {
      OtherStepMoves(cfg, s, a);
      MovesKeepInv(cfg, s, Apply(cfg, s, a));
    }
  }

  lemma InitShared(cfg: Config, s: State)
    requires Init(cfg, s)
    ensures SharedInv(cfg, s.shared)
  {
  }

  lemma InitConsumer(cfg: Config, sh: Shared, c: nat)
    requires Sizes(cfg, sh) && sh.messageLock.None?
    ensures ConsumerInv(cfg, sh, c, LockTake)
  {
  }

  lemma InitInv(cfg: Config, s: State)
    requires Init(cfg, s)
    ensures Inv(cfg, s)
  {
    hide SharedInv, ConsumerInv;
    InitShared(cfg, s);
    SharedSizes(cfg, s.shared);
    forall c | 0 <= c < |s.consumers| ensures ConsumerInv(cfg, s.shared, c, s.consumers[c]) {
      InitConsumer(cfg, s.shared, c);
    }
  }

  lemma {:induction false} RunKeepsInv(cfg: Config, s: State, run: seq<Action>)
    requires Inv(cfg, s) && Legal(cfg, s, run)
    ensures Inv(cfg, Exec(cfg, s, run))
    decreases |run|
  {
    if run != [] {
      StepKeepsInv(cfg, s, run[0]);
      RunKeepsInv(cfg, Apply(cfg, s, run[0]), run[1..]);
    }
  }
}
