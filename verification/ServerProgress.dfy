/** concurrency-webserver/src_multi/wserver.c: how far runs of the server get.  Every request accepted is served, unless
    the server is one of those that lock up. */
module ServerProgress {
  import opened ServerBuffers
  import opened ServerProtocol

  /** A wakeup that no signal caused. */
  predicate Spurious(step: Step) {
    step.WakeMaster? || step.WakeWorker?
  }

  /** No thread can move until a connection comes in, spurious wakeups aside. */
  ghost predicate Idle(cfg: Config, s: State) {
    forall step :: Enabled(cfg, s, step) ==> step.Accept? || Spurious(step)
  }

  lemma IdleThreads(cfg: Config, s: State)
    requires Idle(cfg, s)
    ensures !s.master.Holding? && forall w :: 0 <= w < |s.workers| ==> s.workers[w].Asleep?
  {
    forall w | 0 <= w < |s.workers| ensures s.workers[w].Asleep? {
      assert !Enabled(cfg, s, WorkerTurn(w)) && !Enabled(cfg, s, Finish(w));
    }
    if s.master.Holding? {
      if w: nat :| IsAt(s.workers, w, Asleep) {
        assert Enabled(cfg, s, MasterTurn(w));
      } else {
        assert Enabled(cfg, s, MasterTurn(0));
      }
    }
  }

  /** A server that cannot lock up and can go no further has served every connection it accepted, all workers wait for
      more, and the master takes any connection. */
  lemma IdleIsServed(cfg: Config, steps: seq<Step>)
    requires cfg.bufferNum >= 1 && cfg.workers >= 1 && !(cfg.sff && cfg.bufferNum == 1) && Idle(cfg, Run(cfg, steps))
    ensures var s := Run(cfg, steps);
            && |s.served| == |Accepted(cfg, steps)| && multiset(s.served) == multiset(s.put)
            && Describes(s.put, Accepted(cfg, steps))
            && (forall w :: 0 <= w < |s.workers| ==> s.workers[w].Asleep?)
            && forall fd, size :: Enabled(cfg, s, Accept(fd, size))
  {
    RunInv(cfg, steps);
    AcceptedInOrder(cfg, steps);
    var s := Run(cfg, steps);
    IdleThreads(cfg, s);
    NoneReady(s.workers);
    assert IsAt(s.workers, 0, Asleep);
    SameSize(s.served, s.put);
  }

  lemma SameSize<T>(a: seq<T>, b: seq<T>)
    requires multiset(a) == multiset(b)
    ensures |a| == |b|
  {
    assert |multiset(a)| == |a| && |multiset(b)| == |b|;
  }

  /** A spurious wakeup changes nothing for good: the loop test sends the thread back to sleep. */
  lemma SpuriousWakeups(cfg: Config, steps: seq<Step>, w: nat)
    ensures var s := Run(cfg, steps);
      && (IsAt(s.workers, w, Asleep) ==> IsAt(Run(cfg, steps + [WakeWorker(w)]).workers, w, Ready))
      && (IsAt(s.workers, w, Asleep) && s.buffer == [] ==>
            Run(cfg, steps + [WakeWorker(w)] + [WorkerTurn(w)]) == s)
    ensures var s := Run(cfg, steps);
      s.master.MasterAsleep? ==>
        && Run(cfg, steps + [WakeMaster]).master == Holding(s.master.request)
        && (|s.buffer| == Limit(cfg) ==> Run(cfg, steps + [WakeMaster] + [MasterTurn(0)]) == s)
  {
    RunSnoc(cfg, steps, WakeWorker(w));
    RunSnoc(cfg, steps + [WakeWorker(w)], WorkerTurn(w));
    RunSnoc(cfg, steps, WakeMaster);
    RunSnoc(cfg, steps + [WakeMaster], MasterTurn(0));
  }

  // ---- how long it takes

  function WorkerRank(w: Worker): nat {
    match w
    case Asleep => 0
    case Ready => 1
    case Serving(_) => 2
  }

  function WorkerSum(workers: seq<Worker>): nat {
    if workers == [] then 0 else WorkerSum(workers[..|workers| - 1]) + WorkerRank(workers[|workers| - 1])
  }

  lemma {:induction false} SumUpdated(workers: seq<Worker>, w: nat, to: Worker)
    requires w < |workers|
    ensures WorkerSum(workers[w := to]) == WorkerSum(workers) - WorkerRank(workers[w]) + WorkerRank(to)
  {
    var n := |workers| - 1;
    if w == n {
      assert workers[w := to][..n] == workers[..n];
    } else {
      SumUpdated(workers[..n], w, to);
      assert workers[w := to][..n] == workers[..n][w := to];
    }
  }

  function MasterRank(m: Master): nat {
    match m
    case Accepting => 0
    case MasterAsleep(_) => 4
    case Holding(_) => 5
  }

  /** The work a state has left: five for a connection in the hands of the master, three for a waiting request. */
  function WorkLeft(s: State): nat {
    MasterRank(s.master) + 3 * |s.buffer| + WorkerSum(s.workers)
  }

  lemma StepWorks(cfg: Config, s: State, step: Step)
    requires Enabled(cfg, s, step) && !Spurious(step)
    ensures step.Accept? ==> WorkLeft(Next(cfg, s, step)) == WorkLeft(s) + 5
    ensures !step.Accept? ==> WorkLeft(Next(cfg, s, step)) < WorkLeft(s)
  {
    match step
    case Accept(_, _) =>
    case MasterTurn(wakes) =>
      if |s.buffer| != Limit(cfg) {
        PutLength(cfg, s.buffer, s.master.request);
        if wakes < |s.workers| && s.workers[wakes].Asleep? {
          SumUpdated(s.workers, wakes, Ready);
        }
      }
    case WorkerTurn(w) =>
      if s.buffer == [] {
        SumUpdated(s.workers, w, Asleep);
      } else {
        SumUpdated(s.workers, w, Serving(s.buffer[0]));
      }
    case Finish(w) =>
      SumUpdated(s.workers, w, Ready);
  }

  lemma PutLength(cfg: Config, buffer: seq<Request>, r: Request)
    ensures |PutInto(cfg, buffer, r)| == |buffer| + 1
  {
  }

  /** How many steps of a run moved a thread, the accepting of connections aside. */
  ghost function Moves(cfg: Config, steps: seq<Step>): nat {
    if steps == [] then 0
    else
      var front, step := steps[..|steps| - 1], steps[|steps| - 1];
      Moves(cfg, front) + if Enabled(cfg, Run(cfg, front), step) && !step.Accept? then 1 else 0
  }

  lemma {:induction false} FirstReady(n: nat)
    ensures WorkerSum(seq(n, _ => Ready)) == n
  {
    if n == 0 {
    } else {
      FirstReady(n - 1);
      assert seq(n, _ => Ready)[..n - 1] == seq(n - 1, _ => Ready);
    }
  }

  lemma {:induction false} WorkIsSpent(cfg: Config, steps: seq<Step>)
    requires forall i :: 0 <= i < |steps| ==> !Spurious(steps[i])
    ensures Moves(cfg, steps) + WorkLeft(Run(cfg, steps)) <= 5 * |Accepted(cfg, steps)| + cfg.workers
  {
    if steps == [] {
      FirstReady(cfg.workers);
    } else {
      var front, step := steps[..|steps| - 1], steps[|steps| - 1];
      WorkIsSpent(cfg, front);
      if Enabled(cfg, Run(cfg, front), step) {
        StepWorks(cfg, Run(cfg, front), step);
      }
    }
  }

  /** Whatever the scheduler does, the threads make at most five steps for each connection accepted and one for each
      worker, and then the server is idle. */
  lemma BoundedWork(cfg: Config, steps: seq<Step>)
    requires forall i :: 0 <= i < |steps| ==> !Spurious(steps[i])
    ensures Moves(cfg, steps) <= 5 * |Accepted(cfg, steps)| + cfg.workers
  {
    WorkIsSpent(cfg, steps);
  }

  /** Accepting and moving are all a run does when every step finds its thread able to move. */
  lemma {:induction false} AllMoves(cfg: Config, steps: seq<Step>)
    requires forall i :: 0 <= i < |steps| ==> Enabled(cfg, Run(cfg, steps[..i]), steps[i])
    ensures Moves(cfg, steps) + |Accepted(cfg, steps)| == |steps|
  {
    if steps == [] {
    } else {
      var front := steps[..|steps| - 1];
      assert forall i :: 0 <= i < |front| ==> front[..i] == steps[..i];
      AllMoves(cfg, front);
    }
  }
}
