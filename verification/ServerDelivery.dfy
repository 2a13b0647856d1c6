/** What the server promises to its users over whole runs: messages are conserved and kept in order, each fan-out
    reaches the right slots exactly once, and the join registry hands out groups and ids consistently. */
module ServerDelivery {
  import opened Common
  import opened ServerModel
  import opened ServerSafety

  /** How many writes went to slot `i`. */
  ghost function Count(ws: seq<Write>, i: int): nat {
    if ws == [] then 0 else Count(ws[..|ws| - 1], i) + if ws[|ws| - 1].slot == i then 1 else 0
  }

  lemma {:induction false} IncreasingCount(ws: seq<Write>, i: int)
    requires Increasing(ws)
    ensures Count(ws, i) <= 1
    ensures Count(ws, i) == 1 <==> exists w :: w in ws && w.slot == i
  {
    if ws != [] {
      var init, last := ws[..|ws| - 1], ws[|ws| - 1];
      IncreasingCount(init, i);
      assert forall w :: w in ws <==> w in init || w == last;
      if last.slot == i {
        assert forall w :: w in init ==> w.slot < i;
      }
    }
  }

  /** Main result: no two threads are inside the critical sections of the same mutex. */
  lemma MutualExclusion(cfg: Config, start: State, run: seq<Action>)
    requires Init(cfg, start) && Legal(cfg, start, run)
    ensures var s := Exec(cfg, start, run);
            && (forall p, q :: 0 <= p < q < |s.clients| ==>
                  !(ClientHoldsMessageLock(s.clients[p].pc) && ClientHoldsMessageLock(s.clients[q].pc))
                  && !(HoldsJoinLock(s.clients[p].pc) && HoldsJoinLock(s.clients[q].pc)))
            && (forall c, d :: 0 <= c < d < |s.consumers| ==>
                  !(ConsumerHoldsMessageLock(s.consumers[c]) && ConsumerHoldsMessageLock(s.consumers[d])))
            && (forall p, c :: 0 <= p < |s.clients| && 0 <= c < |s.consumers| ==>
                  !(ClientHoldsMessageLock(s.clients[p].pc) && ConsumerHoldsMessageLock(s.consumers[c])))
  {
    InitInv(cfg, start);
    RunKeepsInv(cfg, start, run);
    var s := Exec(cfg, start, run);
    assert forall p :: 0 <= p < |s.clients| ==> ClientInv(cfg, s.shared, p, s.clients[p]);
    assert forall c :: 0 <= c < |s.consumers| ==> ConsumerInv(cfg, s.shared, c, s.consumers[c]);
  }

  /** The delivering threads that work on job `k`. */
  ghost function Workers(s: State, k: nat): set<nat> {
    set c: nat | c < |s.consumers| && JobOf(s.consumers[c]) == Some(k)
  }

  /** Main result: messages leave the queue in the order they entered it, none lost, none twice; each popped
      message either has been fanned out or is in the hands of exactly one thread. */
  lemma MessagesAreConserved(cfg: Config, start: State, run: seq<Action>)
    requires Init(cfg, start) && Legal(cfg, start, run)
    ensures var s := Exec(cfg, start, run);
            && s.shared.queue.Valid()
            && s.shared.inserted == Popped(s.shared.jobs) + s.shared.queue.Items()
            && (forall k :: 0 <= k < |s.shared.jobs| ==> |Workers(s, k)| == if s.shared.jobs[k].finished then 0 else 1)
  {
    InitInv(cfg, start);
    RunKeepsInv(cfg, start, run);
    var s := Exec(cfg, start, run);
    forall k | 0 <= k < |s.shared.jobs| ensures |Workers(s, k)| == if s.shared.jobs[k].finished then 0 else 1 {
      OneWorker(cfg, s, k);
    }
  }

  lemma OneWorker(cfg: Config, s: State, k: nat)
    requires Inv(cfg, s) && k < |s.shared.jobs|
    ensures Workers(s, k) == if s.shared.jobs[k].finished then {} else {s.shared.jobs[k].holder}
  {
    forall c | c in Workers(s, k) ensures !s.shared.jobs[k].finished && s.shared.jobs[k].holder == c {
      assert ConsumerInv(cfg, s.shared, c, s.consumers[c]);
    }
  }

  /** The exactness of a fan-out, at any time and at its end. */
  ghost predicate ExactFanOut(sh: Shared, job: Job) {
    var g := job.msg.groupId;
    && (forall i: int :: Count(job.writes, i) <= 1)
    && Count(job.writes, job.msg.id) == 0
    && (forall w :: w in job.writes ==> WriteOk(sh, job, w))
    && (job.finished ==>
          forall i: nat :: (g, i) in job.known && i != job.msg.id && (g, i) !in job.gone ==>
            Count(job.writes, i) == 1 && Write(i, job.known[(g, i)]) in job.writes)
  }

  lemma JobIsOk(cfg: Config, s: State, k: nat)
    requires Inv(cfg, s) && k < |s.shared.jobs|
    ensures WritesOk(s.shared, s.shared.jobs[k])
    ensures s.shared.jobs[k].finished ==> Finished(cfg, s.shared, s.shared.jobs[k])
  {
    hide WritesOk, Registry, Slots, Conserved, ClientInv;
    var job := s.shared.jobs[k];
    if !job.finished {
      assert ConsumerInv(cfg, s.shared, job.holder, s.consumers[job.holder]);
    }
  }

  lemma JobsAreExact(cfg: Config, s: State, k: nat)
    requires Inv(cfg, s) && k < |s.shared.jobs|
    ensures ExactFanOut(s.shared, s.shared.jobs[k])
  {
    JobIsOk(cfg, s, k);
    SharedSizes(cfg, s.shared);
    hide Inv, Count, Sizes;
    var sh, job := s.shared, s.shared.jobs[k];
    forall i: int ensures Count(job.writes, i) <= 1 {
      IncreasingCount(job.writes, i);
    }
    IncreasingCount(job.writes, job.msg.id);
    if job.finished {
      forall i: nat | (job.msg.groupId, i) in job.known && i != job.msg.id && (job.msg.groupId, i) !in job.gone
        ensures Count(job.writes, i) == 1 && Write(i, job.known[(job.msg.groupId, i)]) in job.writes
      {
        assert (job.msg.groupId, i) in sh.registered && sh.registered[(job.msg.groupId, i)] == job.known[(job.msg.groupId, i)];
        BelowGroupSize(cfg, sh, job.msg.groupId, i);
        IncreasingCount(job.writes, i);
      }
    }
  }

  lemma BelowGroupSize(cfg: Config, sh: Shared, g: nat, i: nat)
    requires Sizes(cfg, sh) && Slots(cfg, sh) && (g, i) in sh.registered
    ensures i < cfg.maxGroupSize
  {
  }

  /** Main result: at any time a message has been written at most once per slot, never to the sender's slot and only
      to slots handed out by a join. Once its fan-out has ended it has been written exactly once, to the right
      descriptor, to every other slot that was registered when it was popped and is not left. */
  lemma FanOutIsExact(cfg: Config, start: State, run: seq<Action>, k: nat)
    requires Init(cfg, start) && Legal(cfg, start, run) && k < |Exec(cfg, start, run).shared.jobs|
    ensures ExactFanOut(Exec(cfg, start, run).shared, Exec(cfg, start, run).shared.jobs[k])
  {
    hide *;
    InitInv(cfg, start);
    RunKeepsInv(cfg, start, run);
    JobsAreExact(cfg, Exec(cfg, start, run), k);
  }

  // ---- The join registry ----

  lemma {:induction false} GroupSizeGrows(joins: seq<Join>, a: nat, b: nat, g: nat)
    requires a <= b <= |joins|
    ensures GroupSize(joins[..a], g) <= GroupSize(joins[..b], g)
    decreases b - a
  {
    if a < b {
      assert joins[..b][..b - 1] == joins[..b - 1];
      GroupSizeGrows(joins, a, b - 1, g);
    }
  }

  /** What two joins may be told. */
  ghost predicate ConsistentJoins(joins: seq<Join>, a: nat, b: nat)
    requires a < b < |joins|
  {
    && (joins[a].group == joins[b].group <==> joins[a].name == joins[b].name)
    && (joins[a].group == joins[b].group ==> joins[a].id < joins[b].id)
    && joins[b].id == GroupSize(joins[..b], joins[b].group)
  }

  lemma RegistryIsConsistent(cfg: Config, sh: Shared, a: nat, b: nat)
    requires Sizes(cfg, sh) && Registry(cfg, sh) && a < b < |sh.joins|
    ensures ConsistentJoins(sh.joins, a, b)
  {
    var joins := sh.joins;
    GroupSizeGrows(joins, a + 1, b, joins[a].group);
    assert joins[..a + 1][..a] == joins[..a];
  }

  lemma RegistryHolds(cfg: Config, s: State)
    requires Inv(cfg, s)
    ensures Sizes(cfg, s.shared) && Registry(cfg, s.shared)
  {
  }

  /** Main result: two joins got the same group exactly when their group names are equal, no pair of group and id was
      handed out twice, and the ids of a group are 0, 1, 2, ... in the order of its joins. */
  lemma JoinsAreConsistent(cfg: Config, start: State, run: seq<Action>, a: nat, b: nat)
    requires Init(cfg, start) && Legal(cfg, start, run) && a < b < |Exec(cfg, start, run).shared.joins|
    ensures ConsistentJoins(Exec(cfg, start, run).shared.joins, a, b)
  {
    hide *;
    InitInv(cfg, start);
    RunKeepsInv(cfg, start, run);
    RegistryHolds(cfg, Exec(cfg, start, run));
    RegistryIsConsistent(cfg, Exec(cfg, start, run).shared, a, b);
  }

  lemma StepOnlyGrows(cfg: Config, s: State, a: Action)
    requires Inv(cfg, s) && Enabled(cfg, s, a)
    ensures Grows(s.shared, Apply(cfg, s, a).shared)
  {
    if a.StepClient? {
      ClientStepRely(cfg, s.shared, a.p, s.clients[a.p], ByConsumer(0));
    } else if a.StepConsumer? {
      ConsumerStepRely(cfg, s.shared, a.c, s.consumers[a.c], ByClient(0));
    }
  }

  lemma {:induction false} RunOnlyGrows(cfg: Config, s: State, run: seq<Action>)
    requires Inv(cfg, s) && Legal(cfg, s, run)
    ensures Inv(cfg, Exec(cfg, s, run)) && Grows(s.shared, Exec(cfg, s, run).shared)
    decreases |run|
  {
    if run != [] {
      StepKeepsInv(cfg, s, run[0]);
      StepOnlyGrows(cfg, s, run[0]);
      RunOnlyGrows(cfg, Apply(cfg, s, run[0]), run[1..]);
    }
  }

  /** Main result: a slot whose client has left holds -1 from then on; any other registered slot keeps its descriptor. */
  lemma SlotsAreStable(cfg: Config, start: State, history: seq<Action>, run: seq<Action>, g: nat, i: nat)
    requires Init(cfg, start) && Legal(cfg, start, history) && Legal(cfg, Exec(cfg, start, history), run)
    requires (g, i) in Exec(cfg, start, history).shared.registered
    ensures var sh := Exec(cfg, start, history).shared;
            var sh' := Exec(cfg, Exec(cfg, start, history), run).shared;
            && g < |sh'.connections| && i < |sh'.connections[g]|
            && ((g, i) in sh.left ==> sh'.connections[g][i] == -1)
            && ((g, i) !in sh'.left ==> sh'.connections[g][i] == sh.registered[(g, i)])
  {
    InitInv(cfg, start);
    RunOnlyGrows(cfg, start, history);
    RunOnlyGrows(cfg, Exec(cfg, start, history), run);
  }
}
