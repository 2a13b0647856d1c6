/** To which descriptors the server of src/server.c writes: the slot's own, and in two races 0 and -1. */
module ServerWrites {
  import opened Common
  import opened CyclicQueue
  import opened ServerModel
  import opened ServerSafety

  // ---- When a write goes to the slot's own descriptor ----

  /** The descriptor is the one that the slot's client stored. */
  ghost predicate IsOwn(sh: Shared, g: nat, w: Write) {
    (g, w.slot) in sh.registered && w.fd == sh.registered[(g, w.slot)]
  }

  /**
   * In every run, a write goes to the slot's own descriptor exactly if the slot is stored and not left at that step.
   * Otherwise it goes to -1 if the slot was left, and to 0 if it is counted and not yet stored.
   */
  lemma WriteIsOwn(cfg: Config, start: State, run: seq<Action>, c: nat)
    requires Init(cfg, start) && Legal(cfg, start, run)
    requires var s := Exec(cfg, start, run); c < |s.consumers| && s.consumers[c].Send?
    ensures var s := Exec(cfg, start, run);
            var d, sh := s.consumers[c], s.shared;
            && Enabled(cfg, s, StepConsumer(c)) && d.job < |sh.jobs|
            && var sh' := Apply(cfg, s, StepConsumer(c)).shared;
               var g := sh.jobs[d.job].msg.groupId;
               && |sh'.jobs| == |sh.jobs| && |sh'.jobs[d.job].writes| == |sh.jobs[d.job].writes| + 1
               && var w := sh'.jobs[d.job].writes[|sh.jobs[d.job].writes|];
                  && w.slot == d.i
                  && (IsOwn(sh, g, w) <==> (g, d.i) in sh.registered && (g, d.i) !in sh.left)
                  && (w.fd == -1 <==> (g, d.i) in sh.left)
                  && ((g, d.i) !in sh.registered ==> w.fd == 0)
  {
    hide Legal, Exec, Jobs, Registry, Conserved, MessagesOk, Progress, ClientInv, Held;
    InitInv(cfg, start);
    RunKeepsInv(cfg, start, run);
  }

  // ---- Runs ----

  lemma NoRun(cfg: Config, s: State) returns (run: seq<Action>)
    ensures Legal(cfg, s, run) && Exec(cfg, s, run) == s
  {
    run := [];
  }

  /** One step more. */
  lemma Then(cfg: Config, s: State, run: seq<Action>, a: Action) returns (more: seq<Action>)
    requires Legal(cfg, s, run) && Enabled(cfg, Exec(cfg, s, run), a)
    ensures Legal(cfg, s, more) && Exec(cfg, s, more) == Apply(cfg, Exec(cfg, s, run), a)
  {
    hide Enabled, Apply;
    assert [a][1..] == [];
    RunThen(cfg, s, run, [a]);
    more := run + [a];
  }

  /** One group of two, one delivering thread, a queue for one message. */
  const PAIRED := Config(1, 1, 1, 2)
  const HELLO := Message(0, 0, "hello")

  /** The first client has joined. */
  ghost function Joined(s: State): State {
    s.(clients := [Client(5, 0, 0, AwaitMessage)],
       shared := s.shared.(groupCount := 1, groupNames := ["g"], connectionCount := [1], connections := [[5, 0]],
                           joins := [Join("g", 0, 0)], registered := map[(0, 0) := 5]))
  }

  /** The second client is counted and has not yet stored its descriptor. */
  ghost function Counted(s: State): State {
    var s' := Joined(s);
    s'.(clients := s'.clients + [Client(6, 0, 1, Store)],
        shared := s'.shared.(joinLock := Some(1), connectionCount := [2], joins := [Join("g", 0, 0), Join("g", 0, 1)]))
  }

  /** The second client has joined, too. */
  ghost function Stored(s: State): State {
    var s' := Counted(s);
    s'.(clients := [Client(5, 0, 0, AwaitMessage), Client(6, 0, 1, AwaitMessage)],
        shared := s'.shared.(joinLock := None, connections := [[5, 6]], registered := map[(0, 0) := 5, (0, 1) := 6]))
  }

  /** The first client has created the group and stands before counting itself. */
  ghost function Named(s: State): State {
    s.(clients := [Client(5, 0, 0, Bump("g"))],
       shared := s.shared.(joinLock := Some(0), groupCount := 1, groupNames := ["g"]))
  }

  lemma FirstNames(s: State) returns (run: seq<Action>)
    requires Init(PAIRED, s)
    ensures Legal(PAIRED, s, run) && Exec(PAIRED, s, run) == Named(s)
  {
    hide Legal, Exec;
    run := NoRun(PAIRED, s);
    run := Then(PAIRED, s, run, Connect(5));
    run := Then(PAIRED, s, run, ReadJoin(0, "g"));
    run := Then(PAIRED, s, run, StepClient(0));
    run := Then(PAIRED, s, run, StepClient(0));
    run := Then(PAIRED, s, run, StepClient(0));
    var e := Exec(PAIRED, s, run);
    assert e.clients == Named(s).clients && e.consumers == s.consumers && e.shared.groupNames == ["g"];
  }

  lemma FirstJoins(s: State) returns (run: seq<Action>)
    requires Init(PAIRED, s)
    ensures Legal(PAIRED, Named(s), run) && Exec(PAIRED, Named(s), run) == Joined(s)
  {
    hide Legal, Exec;
    var j := Named(s);
    run := NoRun(PAIRED, j);
    run := Then(PAIRED, j, run, StepClient(0));
    run := Then(PAIRED, j, run, StepClient(0));
    run := Then(PAIRED, j, run, StepClient(0));
    run := Then(PAIRED, j, run, StepClient(0));
    var e := Exec(PAIRED, j, run);
    assert e.clients == Joined(s).clients && e.consumers == s.consumers;
    assert e.shared.connectionCount == [1] && e.shared.connections[0] == [5, 0] && e.shared.connections == [[5, 0]];
    assert e.shared.joins == [Join("g", 0, 0)] && e.shared.registered == map[(0, 0) := 5];
  }

  lemma SecondIsCounted(s: State) returns (run: seq<Action>)
    requires Init(PAIRED, s)
    ensures Legal(PAIRED, Joined(s), run) && Exec(PAIRED, Joined(s), run) == Counted(s)
  {
    hide Legal, Exec;
    var j := Joined(s);
    run := NoRun(PAIRED, j);
    run := Then(PAIRED, j, run, Connect(6));
    run := Then(PAIRED, j, run, ReadJoin(1, "g"));
    run := Then(PAIRED, j, run, StepClient(1));
    run := Then(PAIRED, j, run, StepClient(1));
    run := Then(PAIRED, j, run, StepClient(1));
    var e := Exec(PAIRED, j, run);
    assert e.clients == Counted(s).clients && e.consumers == s.consumers;
    assert e.shared.connectionCount == [2] && e.shared.joins == [Join("g", 0, 0), Join("g", 0, 1)];
  }

  lemma SecondIsStored(s: State) returns (run: seq<Action>)
    requires Init(PAIRED, s)
    ensures Legal(PAIRED, Counted(s), run) && Exec(PAIRED, Counted(s), run) == Stored(s)
  {
    hide Legal, Exec;
    var j := Counted(s);
    run := NoRun(PAIRED, j);
    run := Then(PAIRED, j, run, StepClient(1));
    run := Then(PAIRED, j, run, StepClient(1));
    run := Then(PAIRED, j, run, StepClient(1));
    var e := Exec(PAIRED, j, run);
    assert e.clients == Stored(s).clients && e.consumers == s.consumers;
    assert e.shared.connections[0] == [5, 6] && e.shared.connections == [[5, 6]];
    assert e.shared.registered == map[(0, 0) := 5, (0, 1) := 6];
  }

  /** The first client can send, and the delivering thread waits for the lock. */
  ghost predicate CanSend(s: State) {
    && |s.clients| == 2 && s.clients[0].pc.AwaitMessage? && !s.clients[1].pc.WaitSpace? && s.consumers == [LockTake]
    && s.shared.messageLock.None? && s.shared.queue.Valid() && s.shared.queue.l == 0 && s.shared.queue.r == 0
    && |s.shared.queue.slots| == 2 && s.shared.jobs == [] && s.shared.connectionCount == [2]
    && |s.shared.connections| == 1 && |s.shared.connections[0]| == 2 && s.shared.connections[0][1] != -1
  }

  /** The message of the first client is in the queue. */
  ghost function Queued(s: State): State
    requires CanSend(s)
  {
    var q := s.shared.queue;
    s.(shared := s.shared.(queue := Ring(0, 1, q.slots[0 := HELLO]), inserted := s.shared.inserted + [HELLO]))
  }

  /** It was popped, and the delivering thread is about to write to the slot of the second client. */
  ghost function Fanning(s: State): State
    requires CanSend(s)
  {
    var q := s.shared.queue;
    s.(consumers := [Send(0, 1)],
       shared := Queued(s).shared.(queue := Ring(1, 1, q.slots[0 := HELLO]),
                                   jobs := [Job(HELLO, 0, s.shared.registered, [], false, {})]))
  }

  /** The first client holds the lock and found room in the queue. */
  ghost function Ahead(s: State): State
    requires CanSend(s)
  {
    s.(clients := s.clients[0 := s.clients[0].(pc := Inserting(HELLO, false))],
       shared := s.shared.(messageLock := Some(ByClient(0))))
  }

  lemma FindsRoom(s: State) returns (run: seq<Action>)
    requires CanSend(s)
    ensures Legal(PAIRED, s, run) && Exec(PAIRED, s, run) == Ahead(s)
  {
    hide Legal, Exec;
    run := NoRun(PAIRED, s);
    run := Then(PAIRED, s, run, ReadMessage(0, HELLO));
    run := Then(PAIRED, s, run, StepClient(0));
    run := Then(PAIRED, s, run, StepClient(0));
    assert Exec(PAIRED, s, run).clients == Ahead(s).clients;
  }

  lemma Insertion(s: State) returns (run: seq<Action>)
    requires CanSend(s)
    ensures Legal(PAIRED, Ahead(s), run) && Exec(PAIRED, Ahead(s), run) == Queued(s)
  {
    hide Legal, Exec;
    var j := Ahead(s);
    run := NoRun(PAIRED, j);
    run := Then(PAIRED, j, run, StepClient(0));
    run := Then(PAIRED, j, run, StepClient(0));
    run := Then(PAIRED, j, run, SignalToConsumer(0, None));
    var e := Exec(PAIRED, j, run);
    assert e.clients == s.clients && e.shared.queue == Queued(s).shared.queue;
  }

  lemma Fetch(s: State) returns (run: seq<Action>)
    requires CanSend(s)
    ensures Legal(PAIRED, Queued(s), run) && Exec(PAIRED, Queued(s), run) == Fanning(s)
  {
    hide Legal, Exec;
    var j := Queued(s);
    run := NoRun(PAIRED, j);
    run := Then(PAIRED, j, run, StepConsumer(0));
    run := Then(PAIRED, j, run, StepConsumer(0));
    run := Then(PAIRED, j, run, StepConsumer(0));
    run := Then(PAIRED, j, run, StepConsumer(0));
    run := Then(PAIRED, j, run, SignalToClient(0, None));
    run := Then(PAIRED, j, run, StepConsumer(0));
    run := Then(PAIRED, j, run, StepConsumer(0));
    run := Then(PAIRED, j, run, StepConsumer(0));
    run := Then(PAIRED, j, run, StepConsumer(0));
    var e := Exec(PAIRED, j, run);
    assert e.clients == s.clients && e.consumers == [Send(0, 1)];
    assert e.shared.jobs == Fanning(s).shared.jobs && e.shared.queue == Fanning(s).shared.queue;
  }

  lemma Delivery(s: State) returns (run: seq<Action>)
    requires CanSend(s)
    ensures Legal(PAIRED, s, run) && Exec(PAIRED, s, run) == Fanning(s)
  {
    hide *;
    var a := FindsRoom(s);
    var b := Insertion(s);
    RunThen(PAIRED, s, a, b);
    var c := Fetch(s);
    RunThen(PAIRED, s, a + b, c);
    run := a + b + c;
  }

  lemma ToCounted(s: State) returns (run: seq<Action>)
    requires Init(PAIRED, s)
    ensures Legal(PAIRED, s, run) && Exec(PAIRED, s, run) == Counted(s)
  {
    hide *;
    var a := FirstNames(s);
    var b := FirstJoins(s);
    RunThen(PAIRED, s, a, b);
    var c := SecondIsCounted(s);
    RunThen(PAIRED, s, a + b, c);
    run := a + b + c;
  }

  lemma CountedCanSend(s: State)
    requires Init(PAIRED, s)
    ensures CanSend(Counted(s)) && CanSend(Stored(s))
  {
  }

  lemma WriteAtCounted(s: State)
    requires Init(PAIRED, s) && CanSend(Counted(s))
    ensures Enabled(PAIRED, Fanning(Counted(s)), StepConsumer(0))
    ensures var sh := Apply(PAIRED, Fanning(Counted(s)), StepConsumer(0)).shared;
            |sh.jobs| == 1 && sh.jobs[0].writes == [Write(1, 0)] && (0, 1) !in sh.registered
  {
  }

  /** There is a run in which the server writes a message to descriptor 0, to the slot of a client that is just joining. */
  lemma DescriptorZeroIsWritten(s: State) returns (run: seq<Action>)
    requires Init(PAIRED, s)
    ensures Legal(PAIRED, s, run)
    ensures var sh := Exec(PAIRED, s, run).shared;
            |sh.jobs| == 1 && sh.jobs[0].writes == [Write(1, 0)] && (0, 1) !in sh.registered
  {
    hide *;
    var a := ToCounted(s);
    CountedCanSend(s);
    var b := Delivery(Counted(s));
    RunThen(PAIRED, s, a, b);
    WriteAtCounted(s);
    run := Then(PAIRED, s, a + b, StepConsumer(0));
  }

  lemma WriteAfterLeaving(s: State) returns (run: seq<Action>)
    requires Init(PAIRED, s) && CanSend(Stored(s))
    ensures Legal(PAIRED, Fanning(Stored(s)), run)
    ensures var sh := Exec(PAIRED, Fanning(Stored(s)), run).shared;
            |sh.jobs| == 1 && sh.jobs[0].writes == [Write(1, -1)] && (0, 1) in sh.left
  {
    hide Legal, Exec;
    var f := Fanning(Stored(s));
    run := NoRun(PAIRED, f);
    run := Then(PAIRED, f, run, HangUp(1));
    run := Then(PAIRED, f, run, StepClient(1));
    run := Then(PAIRED, f, run, StepConsumer(0));
  }

  /** And one in which it writes to descriptor -1, to the slot of a client that left behind the test of its descriptor. */
  lemma DescriptorMinusOneIsWritten(s: State) returns (run: seq<Action>)
    requires Init(PAIRED, s)
    ensures Legal(PAIRED, s, run)
    ensures var sh := Exec(PAIRED, s, run).shared;
            |sh.jobs| == 1 && sh.jobs[0].writes == [Write(1, -1)] && (0, 1) in sh.left
  {
    hide *;
    var a := ToCounted(s);
    var b := SecondIsStored(s);
    RunThen(PAIRED, s, a, b);
    CountedCanSend(s);
    var c := Delivery(Stored(s));
    RunThen(PAIRED, s, a + b, c);
    var d := WriteAfterLeaving(s);
    RunThen(PAIRED, s, a + b + c, d);
    run := a + b + c + d;
  }
}
