/** How far a run of pzip3 gets: who can be stuck, that a run without spurious wakeups does a bounded amount of work,
    how it ends, and when it can hang. */
module Pzip3Progress {
  import opened Pzip3Pages
  import opened Pzip3Work
  import opened Pzip3Protocol
  import opened Pzip3Invariant
  import opened Pzip3History
  import opened Pzip3Runs

  /** Before completion the producer sleeps only while the queue is full (or the consumer that just made room still
      holds the lock, about to signal), and then no consumer sleeps. */
  lemma ProducerSleepsOnlyWhenFull(cfg: Config, steps: seq<Step>)
    requires ConfigOk(cfg) && Exec(cfg, steps).prod.PAsleep?
    ensures var s := Exec(cfg, steps);
      && (forall c :: 0 <= c < |s.cons| ==> !s.cons[c].CAsleep?)
      && (s.lock.Free? ==> s.ring.size == 10)
      && !s.isComplete
  {
    RunInv(cfg, steps);
  }

  predicate Spurious(step: Step) {
    step.SpuriousProducer? || step.SpuriousConsumer?
  }

  ghost predicate NoSpurious(steps: seq<Step>) {
    forall k :: 0 <= k < |steps| ==> !Spurious(steps[k])
  }

  /** Before completion some thread can always move without a spurious wakeup. */
  lemma NoDeadlockBeforeCompletion(cfg: Config, steps: seq<Step>) returns (step: Step)
    requires ConfigOk(cfg) && cfg.consumers > 0 && !Exec(cfg, steps).isComplete
    ensures Enabled(cfg, Exec(cfg, steps), step) && !Spurious(step)
  {
    var s := Exec(cfg, steps);
    RunInv(cfg, steps);
    if s.lock.ByConsumer? {
      step := ConsumerStep(s.lock.c);
    } else if s.prod.PAsleep? {
      step := ConsumerStep(0);
    } else {
      step := ProducerStep(set c | 0 <= c < |s.cons| && s.cons[c].CAsleep?);
      if exists c :: 0 <= c < |s.cons| && s.cons[c].CAsleep? {
        var c :| 0 <= c < |s.cons| && s.cons[c].CAsleep?;
        assert c in step.wakes;
      }
    }
  }

  lemma ExecSnoc(cfg: Config, steps: seq<Step>, step: Step)
    requires ConfigOk(cfg)
    ensures Exec(cfg, steps + [step]) == Next(cfg, Exec(cfg, steps), step)
  {
    assert (steps + [step])[..|steps|] == steps;
  }

  // ---- a bound on the work of a run

  /** In a run without spurious wakeups a woken producer finds room. */
  ghost predicate RoomInv(s: State) {
    && (s.prod.PWoken? ==> s.ring.size < Q_CAPACITY)
    && (forall c :: 0 <= c < |s.cons| && s.cons[c].CTook? ==> s.ring.size < Q_CAPACITY)
  }

  lemma StepRoom(cfg: Config, s: State, step: Step)
    requires Inv(cfg, s) && RoomInv(s) && Enabled(cfg, s, step) && !Spurious(step)
    ensures RoomInv(Next(cfg, s, step))
  {
    if step.ConsumerStep? {
      ConsumerMoves(cfg, s, step.c);
    }
  }

  /** Steps the producer has left in files `i`, `i+1`, ...: two for each file and eight for each page. */
  function FilesCost(cfg: Config, i: nat): nat
    requires ConfigOk(cfg) && i <= |cfg.files|
    decreases |cfg.files| - i
  {
    if i == |cfg.files| then 0 else 2 + 8 * Pages(cfg, i) + FilesCost(cfg, i + 1)
  }

  /** The producer's place in the code, as a number every step of its own lowers. */
  function ProducerRank(cfg: Config, s: State): int
    requires ConfigOk(cfg) && Shape(cfg, s)
  {
    match s.prod
    case PDone => 0
    case PBroadcast => 1
    case PFinish => 2
    case PFile(i) => 3 + FilesCost(cfg, i)
    case _ =>
      var i, j := s.prod.i, s.prod.j;
      4 + FilesCost(cfg, i + 1) + 8 * (Pages(cfg, i) - j)
      - match s.prod
        case PPage(_, _) => 0
        case PTest(_, _) => if s.ring.size == Q_CAPACITY then 1 else 4
        case PAsleep(_, _) => 2
        case PWoken(_, _) => 3
        case PPut(_, _) => 5
        case _ => 6
  }

  function StageRank(c: Consumer): nat {
    match c
    case CDone => 0
    case CAsleep => 0
    case CBeforeWait => 1
    case CDecide => 2
    case CTest => 3
    case CTop => 4
    case CWoken => 4
    case CLoopSize => 5
    case CLoop => 6
    case CWork(_) => 7
    case CTook(_) => 8
  }

  function StageSum(cons: seq<Consumer>): nat {
    if cons == [] then 0 else StageSum(cons[..|cons| - 1]) + StageRank(cons[|cons| - 1])
  }

  lemma {:induction false} SumUpdated(cons: seq<Consumer>, c: nat, to: Consumer)
    requires c < |cons|
    ensures StageSum(cons[c := to]) == StageSum(cons) - StageRank(cons[c]) + StageRank(to)
  {
    var n := |cons| - 1;
    if c == n {
      assert cons[c := to][..n] == cons[..n];
    } else {
      SumUpdated(cons[..n], c, to);
      assert cons[c := to][..n] == cons[..n][c := to];
    }
  }

  /** Waking consumers adds at most 4 for each. */
  lemma {:induction false} SumWoken(a: seq<Consumer>, b: seq<Consumer>)
    requires |a| == |b| && forall c :: 0 <= c < |a| ==> b[c] == a[c] || (a[c].CAsleep? && b[c].CWoken?)
    ensures StageSum(b) <= StageSum(a) + 4 * |a|
  {
    if a == [] {
    } else {
      SumWoken(a[..|a| - 1], b[..|b| - 1]);
    }
  }

  /** The work a state has left: a wakeup is paid for by the producer, a round of the consumer loop by its page. */
  function WorkLeft(cfg: Config, s: State): int
    requires ConfigOk(cfg) && Shape(cfg, s)
  {
    (4 * |s.cons| + 1) * ProducerRank(cfg, s) + StageSum(s.cons) + 7 * (|All(cfg)| - Dequeued(cfg, s))
  }

  lemma RankNonNegative(cfg: Config, s: State)
    requires Inv(cfg, s)
    ensures ProducerRank(cfg, s) >= 0 && WorkLeft(cfg, s) >= 0
  {
    TimesNonNegative(4 * |s.cons| + 1, ProducerRank(cfg, s));
  }

  lemma TimesNonNegative(x: nat, y: int)
    requires y >= 0
    ensures x * y >= 0
  {
  }

  lemma ProducerRankFalls(cfg: Config, s: State, wakes: set<nat>)
    requires ConfigOk(cfg) && Shape(cfg, s) && Enabled(cfg, s, ProducerStep(wakes)) && RoomInv(s)
    requires ProducerInv(cfg, s)
    ensures ProducerRank(cfg, ProducerNext(cfg, s, wakes)) < ProducerRank(cfg, s)
  {
    if s.prod.PFile? && s.prod.i < |cfg.files| {
      PageArithmetic(|cfg.files[s.prod.i]|, cfg.pageSize);
    }
  }

  lemma ProducerWakes(cfg: Config, s: State, wakes: set<nat>)
    requires ConfigOk(cfg) && Shape(cfg, s) && Enabled(cfg, s, ProducerStep(wakes))
    ensures var s' := ProducerNext(cfg, s, wakes);
      && |s'.cons| == |s.cons|
      && forall c :: 0 <= c < |s.cons| ==> s'.cons[c] == s.cons[c] || (s.cons[c].CAsleep? && s'.cons[c].CWoken?)
  {
  }

  lemma TimesLess(w: int, x: int, y: int)
    requires w >= 0 && x < y
    ensures w * x + w <= w * y
  {
    assert w * (x + 1) <= w * y;
  }

  lemma WorkFalls(w: int, rank: int, sum: int, rank': int, sum': int)
    requires w >= 0 && rank' < rank && sum' < sum + w
    ensures w * rank' + sum' < w * rank + sum
  {
    TimesLess(w, rank', rank);
  }

  lemma ProducerWorks(cfg: Config, s: State, wakes: set<nat>)
    requires Inv(cfg, s) && RoomInv(s) && Enabled(cfg, s, ProducerStep(wakes))
    ensures WorkLeft(cfg, Next(cfg, s, ProducerStep(wakes))) < WorkLeft(cfg, s)
  {
    var s' := Next(cfg, s, ProducerStep(wakes));
    ProducerRankFalls(cfg, s, wakes);
    ProducerSum(cfg, s, wakes);
    StepCounts(cfg, s, ProducerStep(wakes));
    WorkLess(cfg, s, s');
  }

  lemma WorkLess(cfg: Config, s: State, s': State)
    requires ConfigOk(cfg) && Shape(cfg, s) && Shape(cfg, s') && |s'.cons| == |s.cons|
    requires ProducerRank(cfg, s') < ProducerRank(cfg, s) && StageSum(s'.cons) <= StageSum(s.cons) + 4 * |s.cons|
    requires Dequeued(cfg, s') == Dequeued(cfg, s)
    ensures WorkLeft(cfg, s') < WorkLeft(cfg, s)
  {
    WorkFalls(4 * |s.cons| + 1, ProducerRank(cfg, s), StageSum(s.cons), ProducerRank(cfg, s'), StageSum(s'.cons));
  }

  lemma ProducerSum(cfg: Config, s: State, wakes: set<nat>)
    requires ConfigOk(cfg) && Shape(cfg, s) && Enabled(cfg, s, ProducerStep(wakes))
    ensures var s' := ProducerNext(cfg, s, wakes);
      |s'.cons| == |s.cons| && StageSum(s'.cons) <= StageSum(s.cons) + 4 * |s.cons|
  {
    ProducerWakes(cfg, s, wakes);
    SumWoken(s.cons, ProducerNext(cfg, s, wakes).cons);
  }

  lemma ConsumerStage(cfg: Config, s: State, c: nat)
    requires ConfigOk(cfg) && Shape(cfg, s) && Enabled(cfg, s, ConsumerStep(c))
    ensures StageRank(ConsumerNext(cfg, s, c).cons[c]) < StageRank(s.cons[c]) + 7 * |GotBy(cfg, s, ConsumerStep(c))|
  {
  }

  lemma ConsumerSum(cfg: Config, s: State, c: nat)
    requires ConfigOk(cfg) && Shape(cfg, s) && Enabled(cfg, s, ConsumerStep(c))
    ensures var s' := ConsumerNext(cfg, s, c);
      |s'.cons| == |s.cons| && StageSum(s'.cons) < StageSum(s.cons) + 7 * |GotBy(cfg, s, ConsumerStep(c))|
  {
    var cons' := ConsumerNext(cfg, s, c).cons;
    ConsumerMoves(cfg, s, c);
    assert cons' == s.cons[c := cons'[c]];
    SumUpdated(s.cons, c, cons'[c]);
    ConsumerStage(cfg, s, c);
  }

  lemma ConsumerLeavesRank(cfg: Config, s: State, c: nat)
    requires ConfigOk(cfg) && Shape(cfg, s) && Enabled(cfg, s, ConsumerStep(c)) && LockInv(s)
    ensures ProducerRank(cfg, ConsumerNext(cfg, s, c)) <= ProducerRank(cfg, s)
  {
  }

  lemma TimesMonotone(w: int, x: int, y: int)
    requires w >= 0 && x <= y
    ensures w * x <= w * y
  {
  }

  lemma WorkTaken(cfg: Config, s: State, s': State, got: nat)
    requires ConfigOk(cfg) && Shape(cfg, s) && Shape(cfg, s') && |s'.cons| == |s.cons|
    requires ProducerRank(cfg, s') <= ProducerRank(cfg, s) && StageSum(s'.cons) < StageSum(s.cons) + 7 * got
    requires Dequeued(cfg, s') == Dequeued(cfg, s) + got
    ensures WorkLeft(cfg, s') < WorkLeft(cfg, s)
  {
    TimesMonotone(4 * |s.cons| + 1, ProducerRank(cfg, s'), ProducerRank(cfg, s));
  }

  lemma ConsumerWorks(cfg: Config, s: State, c: nat)
    requires Inv(cfg, s) && Enabled(cfg, s, ConsumerStep(c))
    ensures WorkLeft(cfg, Next(cfg, s, ConsumerStep(c))) < WorkLeft(cfg, s)
  {
    var s' := Next(cfg, s, ConsumerStep(c));
    ConsumerSum(cfg, s, c);
    ConsumerLeavesRank(cfg, s, c);
    StepCounts(cfg, s, ConsumerStep(c));
    WorkTaken(cfg, s, s', |GotBy(cfg, s, ConsumerStep(c))|);
  }

  /** How many steps of a run found their thread able to move. */
  ghost function Effective(cfg: Config, steps: seq<Step>): nat
    requires ConfigOk(cfg)
  {
    if steps == [] then 0
    else
      var front := steps[..|steps| - 1];
      Effective(cfg, front) + if Enabled(cfg, Exec(cfg, front), steps[|steps| - 1]) then 1 else 0
  }

  lemma {:induction false} WorkIsSpent(cfg: Config, steps: seq<Step>)
    requires ConfigOk(cfg) && NoSpurious(steps)
    ensures RoomInv(Exec(cfg, steps))
    ensures Effective(cfg, steps) + WorkLeft(cfg, Exec(cfg, steps)) <= WorkLeft(cfg, Init(cfg))
  {
    if steps == [] {
    } else {
      var front, step := steps[..|steps| - 1], steps[|steps| - 1];
      WorkIsSpent(cfg, front);
      var s := Exec(cfg, front);
      RunInv(cfg, front);
      if Enabled(cfg, s, step) {
        StepRoom(cfg, s, step);
        if step.ProducerStep? {
          ProducerWorks(cfg, s, step.wakes);
        } else {
          ConsumerWorks(cfg, s, step.c);
        }
      }
    }
  }

  lemma {:induction false} CostOfAll(cfg: Config, i: nat)
    requires ConfigOk(cfg) && i <= |cfg.files|
    ensures FilesCost(cfg, i) == 2 * (|cfg.files| - i)
                                 + 8 * (TotalPages(cfg.files, cfg.pageSize) - FirstPage(cfg.files, cfg.pageSize, i))
    decreases |cfg.files| - i
  {
    if i == |cfg.files| {
    } else {
      CostOfAll(cfg, i + 1);
    }
  }

  lemma {:induction false} StageSumOfTops(cons: seq<Consumer>)
    requires forall c :: 0 <= c < |cons| ==> cons[c] == CTop
    ensures StageSum(cons) == 4 * |cons|
  {
    if cons == [] {
    } else {
      StageSumOfTops(cons[..|cons| - 1]);
    }
  }

  lemma WorkAtStart(cfg: Config)
    requires ConfigOk(cfg)
    ensures WorkLeft(cfg, Init(cfg)) ==
            (4 * cfg.consumers + 1) * (3 + 2 * |cfg.files| + 8 * |All(cfg)|) + 4 * cfg.consumers + 7 * |All(cfg)|
  {
    CostOfAll(cfg, 0);
    StageSumOfTops(Init(cfg).cons);
    assert Dequeued(cfg, Init(cfg)) == 0;
  }

  /** No busy waiting: a run without spurious wakeups makes at most so many steps, whatever the scheduler does. */
  lemma BoundedWork(cfg: Config, steps: seq<Step>)
    requires ConfigOk(cfg) && NoSpurious(steps)
    ensures Effective(cfg, steps) <=
            (4 * cfg.consumers + 1) * (3 + 2 * |cfg.files| + 8 * |All(cfg)|) + 4 * cfg.consumers + 7 * |All(cfg)|
  {
    WorkIsSpent(cfg, steps);
    RunInv(cfg, steps);
    RankNonNegative(cfg, Exec(cfg, steps));
    WorkAtStart(cfg);
  }

  /** A run in which every step finds its thread able to move has no other steps to count. */
  lemma {:induction false} AllEffective(cfg: Config, steps: seq<Step>)
    requires ConfigOk(cfg) && forall i :: 0 <= i < |steps| ==> Enabled(cfg, Exec(cfg, steps[..i]), steps[i])
    ensures Effective(cfg, steps) == |steps|
  {
    if steps == [] {
    } else {
      var front := steps[..|steps| - 1];
      assert forall i :: 0 <= i < |front| ==> front[..i] == steps[..i];
      AllEffective(cfg, front);
    }
  }

  // ---- where runs end

  ghost predicate Awake(cons: seq<Consumer>, c: nat) {
    c < |cons| && !cons[c].CAsleep? && !cons[c].CDone?
  }

  /** While pages wait, some consumer is awake, or the producer is about to wake one. */
  ghost predicate AwakeInv(s: State) {
    s.ring.size > 0 && !s.prod.PSignal? && |s.cons| > 0 ==> exists c: nat :: Awake(s.cons, c)
  }

  lemma StepAwake(cfg: Config, s: State, step: Step)
    requires Inv(cfg, s) && AwakeInv(s) && Enabled(cfg, s, step)
    ensures AwakeInv(Next(cfg, s, step))
  {
    match step
    case ProducerStep(wakes) => ProducerAwake(cfg, s, wakes);
    case ConsumerStep(c) => ConsumerAwake(cfg, s, c);
    case SpuriousProducer =>
    case SpuriousConsumer(c) => assert Awake(Next(cfg, s, step).cons, c);
  }

  lemma ProducerAwake(cfg: Config, s: State, wakes: set<nat>)
    requires ConfigOk(cfg) && Shape(cfg, s) && ProducerInv(cfg, s) && ConsumerInv(s) && AwakeInv(s)
    requires Enabled(cfg, s, ProducerStep(wakes))
    ensures AwakeInv(ProducerNext(cfg, s, wakes))
  {
    var s' := ProducerNext(cfg, s, wakes);
    ProducerWakes(cfg, s, wakes);
    if s'.ring.size > 0 && !s'.prod.PSignal? && |s.cons| > 0 {
      if s.prod.PSignal? {
        if wakes == {} {
          assert Awake(s'.cons, 0);
        } else {
          var c :| c in wakes;
          assert Awake(s'.cons, c);
        }
      } else if !s.prod.PPut? {
        var c: nat :| Awake(s.cons, c);
        assert Awake(s'.cons, c);
      }
    }
  }

  lemma ConsumerAwake(cfg: Config, s: State, c: nat)
    requires ConfigOk(cfg) && Shape(cfg, s) && ConsumerInv(s) && AwakeInv(s) && Enabled(cfg, s, ConsumerStep(c))
    ensures AwakeInv(ConsumerNext(cfg, s, c))
  {
    var s' := ConsumerNext(cfg, s, c);
    if s'.ring.size > 0 {
      assert Awake(s'.cons, c);
    }
  }

  lemma {:induction false} RunAwake(cfg: Config, steps: seq<Step>)
    requires ConfigOk(cfg)
    ensures AwakeInv(Exec(cfg, steps))
  {
    if steps == [] {
    } else {
      var front, step := steps[..|steps| - 1], steps[|steps| - 1];
      RunAwake(cfg, front);
      RunInv(cfg, front);
      if Enabled(cfg, Exec(cfg, front), step) {
        StepAwake(cfg, Exec(cfg, front), step);
      }
    }
  }

  /** No thread can move without a spurious wakeup. */
  ghost predicate Stuck(cfg: Config, s: State)
    requires ConfigOk(cfg) && Shape(cfg, s)
  {
    forall step :: Enabled(cfg, s, step) ==> Spurious(step)
  }

  lemma StuckThreads(cfg: Config, s: State)
    requires Inv(cfg, s) && s.isComplete && Stuck(cfg, s)
    ensures s.prod.PDone?
    ensures forall c :: 0 <= c < |s.cons| ==> s.cons[c].CDone? || s.cons[c].CAsleep?
  {
    if s.prod.PBroadcast? {
      assert Enabled(cfg, s, ProducerStep({}));
    }
    if s.lock.ByConsumer? {
      assert Enabled(cfg, s, ConsumerStep(s.lock.c));
    }
    forall c | 0 <= c < |s.cons| ensures s.cons[c].CDone? || s.cons[c].CAsleep? {
      assert !Enabled(cfg, s, ConsumerStep(c));
    }
  }

  lemma StuckState(cfg: Config, s: State)
    requires Inv(cfg, s) && AwakeInv(s) && s.isComplete && Stuck(cfg, s) && |s.cons| > 0
    ensures s.prod.PDone? && forall c :: 0 <= c < |s.cons| ==> s.cons[c].CDone? || s.cons[c].CAsleep?
    ensures Dequeued(cfg, s) == |All(cfg)| && InHands(s.cons) == multiset{}
  {
    StuckThreads(cfg, s);
    assert s.ring.size == 0;
    NoHands(s.cons);
  }

  /** Every run that can go no further has done all the work: the producer has returned, every consumer has returned or
      sleeps, and every page's output has been stored exactly once.  Only the return of the sleepers is missing. */
  lemma StuckIsComplete(cfg: Config, steps: seq<Step>)
    requires ConfigOk(cfg) && cfg.consumers > 0 && Stuck(cfg, Exec(cfg, steps))
    ensures var s := Exec(cfg, steps);
      && s.prod.PDone? && (forall c :: 0 <= c < |s.cons| ==> s.cons[c].CDone? || s.cons[c].CAsleep?)
      && Gets(cfg, steps) == All(cfg) && multiset(Writes(cfg, steps)) == multiset(All(cfg))
  {
    RunInv(cfg, steps);
    if !Exec(cfg, steps).isComplete {
      var step := NoDeadlockBeforeCompletion(cfg, steps);
    }
    RunAwake(cfg, steps);
    StuckState(cfg, Exec(cfg, steps));
    PagesConserved(cfg, steps);
    QueueHistory(cfg, steps);
    TakeAll(All(cfg), Dequeued(cfg, Exec(cfg, steps)));
  }

  // ---- runs that return and runs that hang

  datatype Stage = Top | Test | BeforeWait | Sleep | Woken | Decide | Took | Work | Loop | LoopSize | Gone

  function StageOf(c: Consumer): Stage {
    match c
    case CTop => Top
    case CTest => Test
    case CBeforeWait => BeforeWait
    case CAsleep => Sleep
    case CWoken => Woken
    case CDecide => Decide
    case CTook(_) => Took
    case CWork(_) => Work
    case CLoop => Loop
    case CLoopSize => LoopSize
    case CDone => Gone
  }

  /** The control part of a state in which only the producer and consumer 0 have moved. */
  datatype Control = Control(prod: Producer, done: bool, size: int, lock: Holder, stage: Stage)

  ghost predicate At(cfg: Config, steps: seq<Step>, k: Control)
    requires ConfigOk(cfg)
  {
    NoSpurious(steps) && Controlled(Exec(cfg, steps), k)
  }

  ghost predicate Controlled(s: State, k: Control) {
    && |s.cons| > 0
    && s.prod == k.prod && s.isComplete == k.done && s.ring.size == k.size && s.lock == k.lock
    && StageOf(s.cons[0]) == k.stage
    && forall c :: 1 <= c < |s.cons| ==> s.cons[c] == CTop
  }

  /** One step of the producer, as these runs need it. */
  function Produce(cfg: Config, k: Control): Control
    requires ConfigOk(cfg)
  {
    match k.prod
    case PFile(i) =>
      k.(prod := if i >= |cfg.files| then PFinish else if |cfg.files[i]| == 0 then PFile(i + 1) else PPage(i, 0))
    case PPage(i, j) =>
      if i < |cfg.files| && j < Pages(cfg, i) then k.(prod := PTest(i, j), lock := ByProducer)
      else k.(prod := PFile(i + 1))
    case PTest(i, j) => k.(prod := PPut(i, j), lock := Free)
    case PPut(i, j) => k.(prod := PSignal(i, j), size := k.size + 1)
    case PSignal(i, j) => k.(prod := PPage(i, j + 1))
    case PFinish => k.(prod := PBroadcast, done := true)
    case PBroadcast => k.(prod := PDone)
    case _ => k
  }

  predicate CanProduce(k: Control) {
    && k.stage != Sleep && !k.prod.PAsleep? && !k.prod.PWoken? && !k.prod.PDone?
    && (k.prod.PTest? || k.lock.Free? || k.prod.PFinish? || k.prod.PBroadcast?)
    && (k.prod.PTest? ==> k.size < Q_CAPACITY)
  }

  lemma ProducerGoes(cfg: Config, steps: seq<Step>, k: Control) returns (more: seq<Step>)
    requires ConfigOk(cfg) && At(cfg, steps, k) && CanProduce(k)
    ensures At(cfg, more, Produce(cfg, k))
  {
    more := steps + [ProducerStep({})];
    ExecSnoc(cfg, steps, ProducerStep({}));
    ProducerControls(cfg, Exec(cfg, steps), k);
  }

  lemma ProducerControls(cfg: Config, s: State, k: Control)
    requires ConfigOk(cfg) && Shape(cfg, s) && Controlled(s, k) && CanProduce(k)
    ensures Controlled(Next(cfg, s, ProducerStep({})), Produce(cfg, k))
  {
    ProducerWakes(cfg, s, {});
    ProducerStages(cfg, s, k);
    ProduceKeepsStage(cfg, k);
  }

  lemma ProduceKeepsStage(cfg: Config, k: Control)
    requires ConfigOk(cfg)
    ensures Produce(cfg, k).stage == k.stage
  {
  }

  lemma ProducerStages(cfg: Config, s: State, k: Control)
    requires ConfigOk(cfg) && Shape(cfg, s) && CanProduce(k) && forall c :: 0 <= c < |s.cons| ==> !s.cons[c].CAsleep?
    requires s.prod == k.prod && s.isComplete == k.done && s.ring.size == k.size && s.lock == k.lock
    ensures Enabled(cfg, s, ProducerStep({}))
    ensures var s', k' := ProducerNext(cfg, s, {}), Produce(cfg, k);
      s'.prod == k'.prod && s'.isComplete == k'.done && s'.ring.size == k'.size && s'.lock == k'.lock
  {
  }

  /** One step of consumer 0. */
  function Consume(k: Control): Control {
    match k.stage
    case Top => k.(lock := ByConsumer(0), stage := Test)
    case Test => k.(stage := if k.size == 0 && !k.done then BeforeWait else Decide)
    case BeforeWait => k.(lock := Free, stage := Sleep)
    case Decide =>
      if k.done && k.size == 0 then k.(lock := Free, stage := Gone) else k.(size := k.size - 1, stage := Took)
    case Took => k.(lock := Free, stage := Work)
    case Work => k.(stage := Loop)
    case Loop => k.(stage := if k.done then LoopSize else Top)
    case _ => k
  }

  predicate CanConsume(k: Control) {
    && !k.stage.Sleep? && !k.stage.Woken? && !k.stage.LoopSize? && !k.stage.Gone? && !k.prod.PAsleep?
    && (k.stage == Top ==> k.lock == Free)
  }

  lemma ConsumerGoes(cfg: Config, steps: seq<Step>, k: Control) returns (more: seq<Step>)
    requires ConfigOk(cfg) && At(cfg, steps, k) && CanConsume(k)
    ensures At(cfg, more, Consume(k))
  {
    more := steps + [ConsumerStep(0)];
    ExecSnoc(cfg, steps, ConsumerStep(0));
    ConsumerControls(cfg, Exec(cfg, steps), k);
  }

  lemma ConsumerControls(cfg: Config, s: State, k: Control)
    requires ConfigOk(cfg) && Shape(cfg, s) && Controlled(s, k) && CanConsume(k)
    ensures Controlled(Next(cfg, s, ConsumerStep(0)), Consume(k))
  {
    ConsumerStages(cfg, s, k);
    ConsumerMoves(cfg, s, 0);
  }

  lemma ConsumerStages(cfg: Config, s: State, k: Control)
    requires ConfigOk(cfg) && Shape(cfg, s) && |s.cons| > 0 && StageOf(s.cons[0]) == k.stage && CanConsume(k)
    requires s.prod == k.prod && s.isComplete == k.done && s.ring.size == k.size && s.lock == k.lock
    ensures Enabled(cfg, s, ConsumerStep(0))
    ensures var s', k' := ConsumerNext(cfg, s, 0), Consume(k);
      && s'.prod == k'.prod && s'.isComplete == k'.done && s'.ring.size == k'.size && s'.lock == k'.lock
      && StageOf(s'.cons[0]) == k'.stage
  {
  }

  /** One page, put by the producer and compressed by consumer 0. */
  lemma OnePage(cfg: Config, steps: seq<Step>, i: nat, j: nat) returns (more: seq<Step>)
    requires ConfigOk(cfg) && i < |cfg.files| && j < Pages(cfg, i)
    requires At(cfg, steps, Control(PPage(i, j), false, 0, Free, Top))
    ensures At(cfg, more, Control(PPage(i, j + 1), false, 0, Free, Top))
  {
    more := ProducerGoes(cfg, steps, Control(PPage(i, j), false, 0, Free, Top));
    more := ProducerGoes(cfg, more, Control(PTest(i, j), false, 0, ByProducer, Top));
    more := ProducerGoes(cfg, more, Control(PPut(i, j), false, 0, Free, Top));
    more := ProducerGoes(cfg, more, Control(PSignal(i, j), false, 1, Free, Top));
    more := OneRound(cfg, more, PPage(i, j + 1));
  }

  /** One round of the consumer loop. */
  lemma OneRound(cfg: Config, steps: seq<Step>, prod: Producer) returns (more: seq<Step>)
    requires ConfigOk(cfg) && prod.PPage? && At(cfg, steps, Control(prod, false, 1, Free, Top))
    ensures At(cfg, more, Control(prod, false, 0, Free, Top))
  {
    more := ConsumerGoes(cfg, steps, Control(prod, false, 1, Free, Top));
    more := ConsumerGoes(cfg, more, Control(prod, false, 1, ByConsumer(0), Test));
    more := ConsumerGoes(cfg, more, Control(prod, false, 1, ByConsumer(0), Decide));
    more := RestOfRound(cfg, more, prod);
  }

  lemma RestOfRound(cfg: Config, steps: seq<Step>, prod: Producer) returns (more: seq<Step>)
    requires ConfigOk(cfg) && prod.PPage? && At(cfg, steps, Control(prod, false, 0, ByConsumer(0), Took))
    ensures At(cfg, more, Control(prod, false, 0, Free, Top))
  {
    more := ConsumerGoes(cfg, steps, Control(prod, false, 0, ByConsumer(0), Took));
    more := ConsumerGoes(cfg, more, Control(prod, false, 0, Free, Work));
    more := ConsumerGoes(cfg, more, Control(prod, false, 0, Free, Loop));
  }

  lemma {:induction false} AllPagesOf(cfg: Config, steps: seq<Step>, i: nat, j: nat) returns (more: seq<Step>)
    requires ConfigOk(cfg) && i < |cfg.files| && j <= Pages(cfg, i)
    requires At(cfg, steps, Control(PPage(i, j), false, 0, Free, Top))
    ensures At(cfg, more, Control(PFile(i + 1), false, 0, Free, Top))
    decreases Pages(cfg, i) - j
  {
    if j == Pages(cfg, i) {
      more := ProducerGoes(cfg, steps, Control(PPage(i, j), false, 0, Free, Top));
    } else {
      more := OnePage(cfg, steps, i, j);
      more := AllPagesOf(cfg, more, i, j + 1);
    }
  }

  /** All files done, the queue empty, completion not yet announced. */
  lemma {:induction false} AllFilesFrom(cfg: Config, steps: seq<Step>, i: nat) returns (more: seq<Step>)
    requires ConfigOk(cfg) && i <= |cfg.files|
    requires At(cfg, steps, Control(PFile(i), false, 0, Free, Top))
    ensures At(cfg, more, Control(PFinish, false, 0, Free, Top))
    decreases |cfg.files| - i
  {
    more := ProducerGoes(cfg, steps, Control(PFile(i), false, 0, Free, Top));
    if i == |cfg.files| {
    } else {
      if |cfg.files[i]| > 0 {
        more := AllPagesOf(cfg, more, i, 0);
      }
      more := AllFilesFrom(cfg, more, i + 1);
    }
  }

  lemma BeforeFinish(cfg: Config) returns (steps: seq<Step>)
    requires ConfigOk(cfg) && cfg.consumers > 0
    ensures At(cfg, steps, Control(PFinish, false, 0, Free, Top))
  {
    assert At(cfg, [], Control(PFile(0), false, 0, Free, Top));
    steps := AllFilesFrom(cfg, [], 0);
  }

  /** After these steps the producer has returned and consumer `c` sleeps, without a spurious wakeup before. */
  ghost predicate Hangs(cfg: Config, steps: seq<Step>, c: nat)
    requires ConfigOk(cfg)
  {
    var s := Exec(cfg, steps);
    NoSpurious(steps) && s.prod.PDone? && c < |s.cons| && s.cons[c].CAsleep?
  }

  lemma DecidesToWait(cfg: Config, steps: seq<Step>) returns (more: seq<Step>)
    requires ConfigOk(cfg) && At(cfg, steps, Control(PFinish, false, 0, Free, Top))
    ensures At(cfg, more, Control(PFinish, false, 0, ByConsumer(0), BeforeWait))
  {
    more := ConsumerGoes(cfg, steps, Control(PFinish, false, 0, Free, Top));
    more := ConsumerGoes(cfg, more, Control(PFinish, false, 0, ByConsumer(0), Test));
  }

  lemma Announces(cfg: Config, steps: seq<Step>, lock: Holder, stage: Stage) returns (more: seq<Step>)
    requires ConfigOk(cfg) && stage != Sleep && At(cfg, steps, Control(PFinish, false, 0, lock, stage))
    ensures At(cfg, more, Control(PDone, true, 0, lock, stage))
  {
    more := ProducerGoes(cfg, steps, Control(PFinish, false, 0, lock, stage));
    more := ProducerGoes(cfg, more, Control(PBroadcast, true, 0, lock, stage));
  }

  /** `isComplete` is set and `fill` broadcast without the lock, between a consumer's test and its wait. */
  lemma MissedWakeup(cfg: Config) returns (steps: seq<Step>)
    requires ConfigOk(cfg) && cfg.consumers > 0
    ensures Hangs(cfg, steps, 0)
  {
    steps := BeforeFinish(cfg);
    steps := DecidesToWait(cfg, steps);
    steps := Announces(cfg, steps, ByConsumer(0), BeforeWait);
    steps := ConsumerGoes(cfg, steps, Control(PDone, true, 0, ByConsumer(0), BeforeWait));
  }

  lemma StaysAsleep(cfg: Config, s: State, c: nat, step: Step)
    requires ConfigOk(cfg) && Shape(cfg, s) && s.prod.PDone? && c < |s.cons| && s.cons[c].CAsleep?
    requires step != SpuriousConsumer(c)
    ensures Next(cfg, s, step).prod.PDone? && Next(cfg, s, step).cons[c].CAsleep?
  {
  }

  /** From then on only a spurious wakeup can free that consumer. */
  lemma {:induction false} AsleepForever(cfg: Config, steps: seq<Step>, c: nat, more: seq<Step>)
    requires ConfigOk(cfg) && Exec(cfg, steps).prod.PDone?
    requires c < |Exec(cfg, steps).cons| && Exec(cfg, steps).cons[c].CAsleep?
    requires SpuriousConsumer(c) !in more
    ensures Exec(cfg, steps + more).prod.PDone?
    ensures c < |Exec(cfg, steps + more).cons| && Exec(cfg, steps + more).cons[c].CAsleep?
    decreases |more|
  {
    if more == [] {
      assert steps + more == steps;
    } else {
      var front, step := more[..|more| - 1], more[|more| - 1];
      AsleepForever(cfg, steps, c, front);
      assert steps + more == (steps + front) + [step];
      ExecSnoc(cfg, steps + front, step);
      StaysAsleep(cfg, Exec(cfg, steps + front), c, step);
    }
  }

  /** A consumer is asleep for ever: so it is after these steps, and after every continuation of them without a spurious
      wakeup. */
  ghost predicate HangsForever(cfg: Config, steps: seq<Step>, c: nat)
    requires ConfigOk(cfg)
  {
    && Hangs(cfg, steps, c)
    && forall more :: NoSpurious(more) ==> Hangs(cfg, steps + more, c)
  }

  /** The program can hang on every input: for all files, every page size and every number of consumers but zero. */
  lemma HangsExactly(cfg: Config)
    requires ConfigOk(cfg)
    ensures (exists steps, c :: HangsForever(cfg, steps, c)) <==> cfg.consumers > 0
  {
    if cfg.consumers > 0 {
      var steps := MissedWakeup(cfg);
      forall more | NoSpurious(more) ensures Hangs(cfg, steps + more, 0) {
        forall k | 0 <= k < |more| ensures more[k] != SpuriousConsumer(0) {
          assert !Spurious(more[k]);
        }
        AsleepForever(cfg, steps, 0, more);
      }
      assert HangsForever(cfg, steps, 0);
    }
  }

  /** The first `n` consumers have returned, the others are at the top of their loop. */
  ghost predicate FirstReturned(cfg: Config, steps: seq<Step>, n: nat)
    requires ConfigOk(cfg)
  {
    var s := Exec(cfg, steps);
    && NoSpurious(steps) && s.prod.PDone? && s.isComplete && s.ring.size == 0 && s.lock == Free
    && forall c :: 0 <= c < |s.cons| ==> s.cons[c] == if c < n then CDone else CTop
  }

  lemma OneReturns(cfg: Config, steps: seq<Step>, n: nat) returns (more: seq<Step>)
    requires ConfigOk(cfg) && n < cfg.consumers && FirstReturned(cfg, steps, n)
    ensures FirstReturned(cfg, more, n + 1)
  {
    var step := ConsumerStep(n);
    ExecSnoc(cfg, steps, step);
    assert Exec(cfg, steps + [step]).cons[n] == CTest;
    ExecSnoc(cfg, steps + [step], step);
    assert Exec(cfg, steps + [step] + [step]).cons[n] == CDecide;
    ExecSnoc(cfg, steps + [step] + [step], step);
    more := steps + [step] + [step] + [step];
  }

  lemma {:induction false} AllReturnFrom(cfg: Config, steps: seq<Step>, n: nat) returns (more: seq<Step>)
    requires ConfigOk(cfg) && n <= cfg.consumers && FirstReturned(cfg, steps, n)
    ensures FirstReturned(cfg, more, cfg.consumers)
    decreases cfg.consumers - n
  {
    if n == cfg.consumers {
      more := steps;
    } else {
      more := OneReturns(cfg, steps, n);
      more := AllReturnFrom(cfg, more, n + 1);
    }
  }

  /** On every input some run ends with all threads returned. */
  lemma CanReturn(cfg: Config) returns (steps: seq<Step>)
    requires ConfigOk(cfg) && cfg.consumers > 0
    ensures NoSpurious(steps) && Exec(cfg, steps).prod.PDone? && AllReturned(Exec(cfg, steps))
  {
    steps := BeforeFinish(cfg);
    steps := Announces(cfg, steps, Free, Top);
    steps := AllReturnFrom(cfg, steps, 0);
  }
}
