/** The chat server of src/server.c as a step machine: one thread per client (`connection_handler`), a fixed
    number of delivering threads (`messageDeliver`), two mutexes and two condition variables. Every access to
    shared state outside a critical section is a step of its own, and so are the unlock and the signal that
    follows it. Memory is sequentially consistent. */
module ServerModel {
  import opened Common
  import opened CyclicQueue

  /** The queue's capacity, the number of delivering threads, and the sizes of the registry's arrays. */
  datatype Config = Config(capacity: nat, consumers: nat, maxGroups: nat, maxGroupSize: nat)

  datatype Message = Message(id: int, groupId: nat, text: string)

  // ---- Threads ----

  /** Where a client thread is. `woken` remembers that the thread comes from a wait that was signalled. */
  datatype ClientPc =
    | AwaitJoin
    | LockJoin(name: string)
    | Scan(name: string, i: nat)
    | Create(name: string)
    | Bump(name: string)
    | Store
    | UnlockJoin
    | Reply
    | AwaitMessage
    | LockSend(m: Message)
    | CheckFull(m: Message, woken: bool)
    | WaitSpace(m: Message)
    | WokenSpace(m: Message)
    | Inserting(m: Message, woken: bool)
    | UnlockSend
    | SignalConsumer
    | Leaving
    | Gone

  /** A client thread with its descriptor; `group` and `id` are meaningful once the join has assigned them. */
  datatype Client = Client(fd: nat, group: nat, id: nat, pc: ClientPc)

  /** Where a delivering thread is. A popped message is named by its position in the history of pops. */
  datatype Consumer =
    | LockTake
    | CheckEmpty(woken: bool)
    | WaitMessage
    | WokenMessage
    | Popping(woken: bool)
    | UnlockTake(job: nat)
    | SignalClient(job: nat)
    | Test(job: nat, i: nat)
    | Visit(job: nat, i: nat)
    | Send(job: nat, i: nat)

  datatype Thread = ByClient(client: nat) | ByConsumer(consumer: nat)

  // ---- Shared state and history ----

  datatype Write = Write(slot: nat, fd: int)

  datatype Join = Join(name: string, group: nat, id: nat)

  /** The history of one popped message: the delivering thread, the slots registered when the message was popped
      with their descriptors, the writes so far, and the slots left when its fan-out ended. */
  datatype Job = Job(msg: Message, holder: nat, known: map<(nat, nat), nat>, writes: seq<Write>, finished: bool,
                     gone: set<(nat, nat)>)

  /** The server's globals, followed by history that no step reads. */
  datatype Shared = Shared(
    queue: Ring<Message>,
    messageLock: Option<Thread>,
    joinLock: Option<nat>,
    groupCount: nat,
    groupNames: seq<string>,
    connectionCount: seq<nat>,
    connections: seq<seq<int>>,
    inserted: seq<Message>,
    jobs: seq<Job>,
    joins: seq<Join>,
    registered: map<(nat, nat), nat>,
    left: set<(nat, nat)>)

  datatype State = State(shared: Shared, clients: seq<Client>, consumers: seq<Consumer>)

  /** The state once `main` has created the queue and the delivering threads. The queue's slots are not initialised. */
  ghost predicate Init(cfg: Config, s: State) {
    var sh := s.shared;
    && |sh.queue.slots| == cfg.capacity + 1 && sh.queue.l == 0 && sh.queue.r == 0
    && sh.messageLock == None && sh.joinLock == None
    && s.clients == [] && s.consumers == seq(cfg.consumers, _ => LockTake)
    && sh.groupCount == 0 && sh.groupNames == seq(cfg.maxGroups, _ => "")
    && sh.connectionCount == seq(cfg.maxGroups, _ => 0)
    && sh.connections == seq(cfg.maxGroups, _ => seq(cfg.maxGroupSize, _ => 0))
    && sh.inserted == [] && sh.jobs == [] && sh.joins == [] && sh.registered == map[] && sh.left == {}
  }

  // ---- The steps of one thread on the shared state ----

  /** A step whose memory access would be out of bounds is never enabled: `Create` and `Bump` ask for a free
      group and a free slot, which the source does not check. */
  ghost predicate ClientCanStep(cfg: Config, sh: Shared, c: Client) {
    match c.pc
    case AwaitJoin | AwaitMessage | WaitSpace(_) | SignalConsumer | Gone => false
    case LockJoin(_) => sh.joinLock.None?
    case Scan(_, i) => i < sh.groupCount ==> i < |sh.groupNames|
    case Create(_) => sh.groupCount < |sh.groupNames|
    case Bump(_) => c.group < |sh.connectionCount| && sh.connectionCount[c.group] < cfg.maxGroupSize
    case Store | Leaving => c.group < |sh.connections| && c.id < |sh.connections[c.group]|
    case UnlockJoin | Reply | UnlockSend => true
    case LockSend(_) | WokenSpace(_) => sh.messageLock.None?
    case CheckFull(_, _) => sh.queue.Valid()
    case Inserting(_, _) => sh.queue.Valid()
  }

  ghost function ClientStep(cfg: Config, sh: Shared, p: nat, c: Client): (Shared, Client)
    requires ClientCanStep(cfg, sh, c)
  {
    match c.pc
    case LockJoin(name) => (sh.(joinLock := Some(p)), c.(pc := Scan(name, 0)))
    case Scan(name, i) =>
      if i >= sh.groupCount then (sh, c.(pc := Create(name)))
      else if sh.groupNames[i] == name then (sh, c.(group := i, pc := Bump(name)))
      else (sh, c.(pc := Scan(name, i + 1)))
    case Create(name) =>
      var g := sh.groupCount;
      (sh.(groupCount := g + 1, groupNames := sh.groupNames[g := name]), c.(group := g, pc := Bump(name)))
    case Bump(name) =>
      var id := sh.connectionCount[c.group];
      (sh.(connectionCount := sh.connectionCount[c.group := id + 1], joins := sh.joins + [Join(name, c.group, id)]),
       c.(id := id, pc := Store))
    case Store =>
      (sh.(connections := SetSlot(sh.connections, c.group, c.id, c.fd),
       registered := sh.registered[(c.group, c.id) := c.fd]),
       c.(pc := UnlockJoin))
    case UnlockJoin => (sh.(joinLock := None), c.(pc := Reply))
    case Reply => (sh, c.(pc := AwaitMessage))
    case LockSend(m) => (sh.(messageLock := Some(ByClient(p))), c.(pc := CheckFull(m, false)))
    case CheckFull(m, woken) =>
      if sh.queue.IsFull() then (sh.(messageLock := None), c.(pc := WaitSpace(m)))
      else (sh, c.(pc := Inserting(m, woken)))
    case WokenSpace(m) => (sh.(messageLock := Some(ByClient(p))), c.(pc := CheckFull(m, true)))
    case Inserting(m, _) =>
      (if sh.queue.IsFull() then sh else sh.(queue := sh.queue.Insert(m), inserted := sh.inserted + [m]),
       c.(pc := UnlockSend))
    case UnlockSend => (sh.(messageLock := None), c.(pc := SignalConsumer))
    case Leaving =>
      (sh.(connections := SetSlot(sh.connections, c.group, c.id, -1), left := sh.left + {(c.group, c.id)}),
       c.(pc := Gone))
  }

  function SetSlot(connections: seq<seq<int>>, g: nat, i: nat, fd: int): seq<seq<int>>
    requires g < |connections| && i < |connections[g]|
  {
    connections[g := connections[g][i := fd]]
  }

  ghost predicate SlotExists(sh: Shared, k: nat, i: nat) {
    k < |sh.jobs| && sh.jobs[k].msg.groupId < |sh.connections| && i < |sh.connections[sh.jobs[k].msg.groupId]|
  }

  ghost predicate ConsumerCanStep(sh: Shared, d: Consumer) {
    match d
    case WaitMessage | SignalClient(_) => false
    case LockTake | WokenMessage => sh.messageLock.None?
    case CheckEmpty(_) => true
    case Popping(_) => sh.queue.Valid()
    case UnlockTake(_) => true
    case Test(k, _) => k < |sh.jobs| && sh.jobs[k].msg.groupId < |sh.connectionCount|
    case Visit(k, i) => SlotExists(sh, k, i)
    case Send(k, i) => SlotExists(sh, k, i)
  }

  ghost function ConsumerStep(sh: Shared, c: nat, d: Consumer): (Shared, Consumer)
    requires ConsumerCanStep(sh, d)
  {
    match d
    case LockTake => (sh.(messageLock := Some(ByConsumer(c))), CheckEmpty(false))
    case CheckEmpty(woken) =>
      if sh.queue.IsEmpty() then (sh.(messageLock := None), WaitMessage) else (sh, Popping(woken))
    case WokenMessage => (sh.(messageLock := Some(ByConsumer(c))), CheckEmpty(true))
    case Popping(_) =>
      (sh.(queue := sh.queue.Pop(),
       jobs := sh.jobs + [Job(sh.queue.slots[sh.queue.l], c, sh.registered, [], false, {})]),
       UnlockTake(|sh.jobs|))
    case UnlockTake(k) => (sh.(messageLock := None), SignalClient(k))
    case Test(k, i) =>
      if i < sh.connectionCount[sh.jobs[k].msg.groupId] then (sh, Visit(k, i))
      else (sh.(jobs := sh.jobs[k := sh.jobs[k].(finished := true, gone := sh.left)]), LockTake)
    case Visit(k, i) =>
      var msg := sh.jobs[k].msg;
      (sh, if sh.connections[msg.groupId][i] != -1 && i != msg.id then Send(k, i) else Test(k, i + 1))
    case Send(k, i) =>
      var job := sh.jobs[k];
      var w := Write(i, sh.connections[job.msg.groupId][i]);
      (sh.(jobs := sh.jobs[k := job.(writes := job.writes + [w])]), Test(k, i + 1))
  }

  // ---- The steps of the whole server ----

  datatype Action =
    | Connect(fd: nat)
    | ReadJoin(p: nat, name: string)
    | ReadMessage(p: nat, m: Message)
    | HangUp(p: nat)
    | SpuriousClient(p: nat)
    | SpuriousConsumer(c: nat)
    | StepClient(p: nat)
    | SignalToConsumer(p: nat, target: Option<nat>)
    | StepConsumer(c: nat)
    | SignalToClient(c: nat, target: Option<nat>)
  {
    /** Steps that need neither new input nor a spurious wake-up. */
    predicate Internal() {
      StepClient? || SignalToConsumer? || StepConsumer? || SignalToClient?
    }
  }

  ghost predicate ConsumerWaits(s: State, c: nat) {
    c < |s.consumers| && s.consumers[c].WaitMessage?
  }

  ghost predicate ClientWaits(s: State, p: nat) {
    p < |s.clients| && s.clients[p].pc.WaitSpace?
  }

  /** A signal wakes one waiting thread if there is any; `target` says which. */
  ghost predicate Enabled(cfg: Config, s: State, a: Action) {
    match a
    case Connect(_) => true
    case ReadJoin(p, _) => p < |s.clients| && s.clients[p].pc.AwaitJoin?
    case ReadMessage(p, m) => p < |s.clients| && s.clients[p].pc.AwaitMessage? && m.groupId < cfg.maxGroups
    case HangUp(p) => p < |s.clients| && s.clients[p].pc.AwaitMessage?
    case SpuriousClient(p) => ClientWaits(s, p)
    case SpuriousConsumer(c) => ConsumerWaits(s, c)
    case StepClient(p) => p < |s.clients| && ClientCanStep(cfg, s.shared, s.clients[p])
    case SignalToConsumer(p, target) =>
      && p < |s.clients| && s.clients[p].pc.SignalConsumer?
      && (match target
          case None => forall c :: !ConsumerWaits(s, c)
          case Some(c) => ConsumerWaits(s, c))
    case StepConsumer(c) => c < |s.consumers| && ConsumerCanStep(s.shared, s.consumers[c])
    case SignalToClient(c, target) =>
      && c < |s.consumers| && s.consumers[c].SignalClient?
      && (match target
          case None => forall p :: !ClientWaits(s, p)
          case Some(p) => ClientWaits(s, p))
  }

  function Goto(clients: seq<Client>, p: nat, pc: ClientPc): seq<Client>
    requires p < |clients|
  {
    clients[p := clients[p].(pc := pc)]
  }

  /** A signal to `target`, if any: that client leaves its wait. */
  function WakeClient(clients: seq<Client>, target: Option<nat>): seq<Client>
    requires target.Some? ==> target.value < |clients| && clients[target.value].pc.WaitSpace?
  {
    if target.None? then clients else Goto(clients, target.value, WokenSpace(clients[target.value].pc.m))
  }

  function WakeConsumer(consumers: seq<Consumer>, target: Option<nat>): seq<Consumer>
    requires target.Some? ==> target.value < |consumers|
  {
    if target.None? then consumers else consumers[target.value := WokenMessage]
  }

  ghost function Apply(cfg: Config, s: State, a: Action): State
    requires Enabled(cfg, s, a)
  {
    match a
    case Connect(fd) => s.(clients := s.clients + [Client(fd, 0, 0, AwaitJoin)])
    case ReadJoin(p, name) => s.(clients := Goto(s.clients, p, LockJoin(name)))
    case ReadMessage(p, m) => s.(clients := Goto(s.clients, p, LockSend(m)))
    case HangUp(p) => s.(clients := Goto(s.clients, p, Leaving))
    case SpuriousClient(p) => s.(clients := WakeClient(s.clients, Some(p)))
    case SpuriousConsumer(c) => s.(consumers := WakeConsumer(s.consumers, Some(c)))
    case StepClient(p) =>
      var (sh, c) := ClientStep(cfg, s.shared, p, s.clients[p]);
      s.(shared := sh, clients := s.clients[p := c])
    case SignalToConsumer(p, target) =>
      s.(clients := Goto(s.clients, p, AwaitMessage), consumers := WakeConsumer(s.consumers, target))
    case StepConsumer(c) =>
      var (sh, d) := ConsumerStep(s.shared, c, s.consumers[c]);
      s.(shared := sh, consumers := s.consumers[c := d])
    case SignalToClient(c, target) =>
      s.(clients := WakeClient(s.clients, target), consumers := s.consumers[c := Test(s.consumers[c].job, 0)])
  }

  // ---- Runs ----

  ghost predicate Legal(cfg: Config, s: State, run: seq<Action>)
    decreases |run|
  {
    run == [] || (Enabled(cfg, s, run[0]) && Legal(cfg, Apply(cfg, s, run[0]), run[1..]))
  }

  ghost function Exec(cfg: Config, s: State, run: seq<Action>): State
    requires Legal(cfg, s, run)
    decreases |run|
  {
    if run == [] then s else Exec(cfg, Apply(cfg, s, run[0]), run[1..])
  }

  lemma {:induction false} RunThen(cfg: Config, s: State, a: seq<Action>, b: seq<Action>)
    requires Legal(cfg, s, a) && Legal(cfg, Exec(cfg, s, a), b)
    ensures Legal(cfg, s, a + b) && Exec(cfg, s, a + b) == Exec(cfg, Exec(cfg, s, a), b)
    decreases |a|
  {
    hide Enabled, Apply;
    if a == [] {
      assert a + b == b;
    } else {
      RunThen(cfg, Apply(cfg, s, a[0]), a[1..], b);
      assert (a + b)[1..] == a[1..] + b && (a + b)[0] == a[0];
    }
  }

  /** A run is a shorter one and its last step. */
  lemma {:induction false} LastStep(cfg: Config, s: State, run: seq<Action>)
    requires run != [] && Legal(cfg, s, run)
    ensures var before, a := run[..|run| - 1], run[|run| - 1];
            && Legal(cfg, s, before) && Enabled(cfg, Exec(cfg, s, before), a)
            && Exec(cfg, s, run) == Apply(cfg, Exec(cfg, s, before), a)
    decreases |run|
  {
    hide Enabled, Apply;
    if |run| > 1 {
      LastStep(cfg, Apply(cfg, s, run[0]), run[1..]);
      assert run[1..][..|run| - 2] == run[..|run| - 1][1..];
    }
  }
}
