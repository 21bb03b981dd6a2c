/** concurrency-webserver/src_multi/wserver.c: the master that accepts connections and the workers that serve them,
    for every interleaving of their critical sections.

    The mutex is held around all shared data, so one critical section is one step.  A thread that wakes goes back to
    the test of its loop, as a thread that arrives does.  A signal wakes one sleeper if there is one; steps of their
    own model every further or spurious wakeup. */
module ServerProtocol {
  import opened ServerBuffers

  datatype Config = Config(sff: bool, bufferNum: nat, workers: nat)

  /** The master waits while `count` is this: the SFF branch tests `buffer_num-1`. */
  function Limit(cfg: Config): int {
    if cfg.sff then cfg.bufferNum - 1 else cfg.bufferNum
  }

  datatype Master = Accepting | Holding(request: Request) | MasterAsleep(request: Request)

  datatype Worker = Ready | Asleep | Serving(request: Request)

  /** `put` and `served` record every request in the order it entered and left the buffer. */
  datatype State = State(
    buffer: seq<Request>, put: seq<Request>, served: seq<Request>, master: Master, workers: seq<Worker>)

  datatype Step =
    | Accept(fd: int, size: int)
    | MasterTurn(wakes: nat)
    | WorkerTurn(worker: nat)
    | Finish(worker: nat)
    | WakeMaster
    | WakeWorker(worker: nat)

  function Init(cfg: Config): State {
    State([], [], [], Accepting, seq(cfg.workers, _ => Ready))
  }

  ghost predicate IsAt(workers: seq<Worker>, w: nat, at: Worker) {
    w < |workers| && workers[w] == at
  }

  ghost predicate SomeAsleep(workers: seq<Worker>) {
    exists w: nat :: IsAt(workers, w, Asleep)
  }

  /** Steps the threads can take; a signal must pick a sleeper when there is one. */
  ghost predicate Enabled(cfg: Config, s: State, step: Step) {
    match step
    case Accept(_, _) => s.master.Accepting?
    case MasterTurn(wakes) =>
      s.master.Holding? && (|s.buffer| != Limit(cfg) && SomeAsleep(s.workers) ==> IsAt(s.workers, wakes, Asleep))
    case WorkerTurn(w) => IsAt(s.workers, w, Ready)
    case Finish(w) => w < |s.workers| && s.workers[w].Serving?
    case WakeMaster => s.master.MasterAsleep?
    case WakeWorker(w) => IsAt(s.workers, w, Asleep)
  }

  function Signalled(workers: seq<Worker>, w: nat): (after: seq<Worker>) {
    if w < |workers| && workers[w].Asleep? then workers[w := Ready] else workers
  }

  function PutInto(cfg: Config, buffer: seq<Request>, r: Request): (after: seq<Request>) {
    if cfg.sff then InsertBySize(buffer, r) else buffer + [r]
  }

  ghost function Next(cfg: Config, s: State, step: Step): State
    requires Enabled(cfg, s, step)
  {
    match step
    case Accept(fd, size) => s.(master := Holding(Request(|s.put|, fd, size)))
    case MasterTurn(wakes) =>
      var r := s.master.request;
      if |s.buffer| == Limit(cfg) then s.(master := MasterAsleep(r))
      else s.(
        buffer := PutInto(cfg, s.buffer, r),
        put := s.put + [r],
        master := Accepting,
        workers := Signalled(s.workers, wakes))
    case WorkerTurn(w) =>
      if s.buffer == [] then s.(workers := s.workers[w := Asleep])
      else s.(
        buffer := s.buffer[1..],
        served := s.served + [s.buffer[0]],
        master := if s.master.MasterAsleep? then Holding(s.master.request) else s.master,
        workers := s.workers[w := Serving(s.buffer[0])])
    case Finish(w) => s.(workers := s.workers[w := Ready])
    case WakeMaster => s.(master := Holding(s.master.request))
    case WakeWorker(w) => s.(workers := s.workers[w := Ready])
  }

  /** The state after any attempted steps: those that cannot happen leave it unchanged. */
  ghost function Run(cfg: Config, steps: seq<Step>): State {
    if steps == [] then Init(cfg)
    else
      var s := Run(cfg, steps[..|steps| - 1]);
      var step := steps[|steps| - 1];
      if Enabled(cfg, s, step) then Next(cfg, s, step) else s
  }

  lemma RunSnoc(cfg: Config, steps: seq<Step>, step: Step)
    ensures Run(cfg, steps + [step]) ==
            if Enabled(cfg, Run(cfg, steps), step) then Next(cfg, Run(cfg, steps), step) else Run(cfg, steps)
  {
    assert (steps + [step])[..|steps|] == steps;
  }

  // ---- what every run keeps: the requests

  ghost predicate Numbered(put: seq<Request>) {
    forall i :: 0 <= i < |put| ==> put[i].seqno == i
  }

  /** Nothing lost, nothing invented: what entered is what left and what waits. */
  ghost predicate Kept(s: State) {
    && Numbered(s.put)
    && (!s.master.Accepting? ==> s.master.request.seqno == |s.put|)
    && multiset(s.put) == multiset(s.served) + multiset(s.buffer)
  }

  /** Request `put[i]` left before position `b` of `served`. */
  ghost predicate NoOvertaking(put: seq<Request>, served: seq<Request>) {
    forall b, i :: 0 <= b < |served| && 0 <= i < |put| && Before(put[i], served[b]) && i < served[b].seqno ==>
      put[i] in served[..b]
  }

  ghost predicate InOrder(cfg: Config, s: State) {
    if cfg.sff then Ordered(s.buffer) && NoOvertaking(s.put, s.served)
    else s.put == s.served + s.buffer
  }

  lemma Waiting(s: State, x: Request)
    requires Kept(s)
    ensures x in s.put <==> x in s.served || x in s.buffer
    ensures x in s.put ==> x.seqno < |s.put| && s.put[x.seqno] == x
  {
    assert x in s.put <==> x in multiset(s.put);
    if x in s.put {
      var i :| 0 <= i < |s.put| && s.put[i] == x;
    }
  }

  lemma PutKeeps(cfg: Config, s: State, r: Request, t: State)
    requires Kept(s) && InOrder(cfg, s) && r.seqno == |s.put|
    requires t.buffer == PutInto(cfg, s.buffer, r) && t.put == s.put + [r] && t.served == s.served
    requires t.master.Accepting?
    ensures Kept(t) && InOrder(cfg, t)
  {
    InsertElements(s.buffer, r);
    if cfg.sff {
      forall x | x in s.buffer ensures x.seqno < r.seqno {
        Waiting(s, x);
      }
      InsertKeepsOrdered(s.buffer, r);
      PutKeepsOvertaking(s, r);
    } else {
      assert t.put == t.served + t.buffer;
    }
  }

  lemma PutKeepsOvertaking(s: State, r: Request)
    requires Kept(s) && NoOvertaking(s.put, s.served) && r.seqno == |s.put|
    ensures NoOvertaking(s.put + [r], s.served)
  {
    var put := s.put + [r];
    forall b, i | 0 <= b < |s.served| && 0 <= i < |put| && Before(put[i], s.served[b]) && i < s.served[b].seqno
      ensures put[i] in s.served[..b]
    {
      Waiting(s, s.served[b]);
      assert put[i] == s.put[i];
    }
  }

  lemma GetKeeps(cfg: Config, s: State, t: State)
    requires Kept(s) && InOrder(cfg, s) && s.buffer != []
    requires t.buffer == s.buffer[1..] && t.put == s.put && t.served == s.served + [s.buffer[0]]
    requires !t.master.Accepting? ==> t.master.request.seqno == |t.put|
    ensures Kept(t) && InOrder(cfg, t)
  {
    assert s.buffer == [s.buffer[0]] + t.buffer;
    if cfg.sff {
      GetKeepsOvertaking(s);
    } else {
      assert t.put == t.served + t.buffer;
    }
  }

  lemma GetKeepsOvertaking(s: State)
    requires Kept(s) && Ordered(s.buffer) && NoOvertaking(s.put, s.served) && s.buffer != []
    ensures NoOvertaking(s.put, s.served + [s.buffer[0]])
  {
    var r, served := s.buffer[0], s.served + [s.buffer[0]];
    forall b, i | 0 <= b < |served| && 0 <= i < |s.put| && Before(s.put[i], served[b]) && i < served[b].seqno
      ensures s.put[i] in served[..b]
    {
      if b < |s.served| {
        assert served[..b] == s.served[..b];
      } else {
        assert served[..b] == s.served;
        Waiting(s, s.put[i]);
        FrontIsFirst(s.buffer, s.put[i]);
      }
    }
  }

  lemma FrontIsFirst(buffer: seq<Request>, x: Request)
    requires Ordered(buffer) && buffer != [] && Before(x, buffer[0])
    ensures x !in buffer
  {
  }

  // ---- what every run keeps: the threads

  function ReadyCount(workers: seq<Worker>): (n: nat) {
    if workers == [] then 0
    else ReadyCount(workers[..|workers| - 1]) + if workers[|workers| - 1].Ready? then 1 else 0
  }

  lemma {:induction false} CountUpdated(workers: seq<Worker>, w: nat, to: Worker)
    requires w < |workers|
    ensures ReadyCount(workers[w := to]) ==
            ReadyCount(workers) + (if to.Ready? then 1 else 0) - (if workers[w].Ready? then 1 else 0)
  {
    var n := |workers| - 1;
    if w < n {
      CountUpdated(workers[..n], w, to);
      assert workers[w := to][..n] == workers[..n][w := to];
    } else {
      assert workers[w := to][..n] == workers[..n];
    }
  }

  lemma {:induction false} NoneReady(workers: seq<Worker>)
    requires forall w :: 0 <= w < |workers| ==> !workers[w].Ready?
    ensures ReadyCount(workers) == 0
  {
    if workers == [] {
    } else {
      NoneReady(workers[..|workers| - 1]);
    }
  }

  /** A worker sleeps only while the workers awake and idle are enough for every waiting request. */
  ghost predicate Conserving(s: State) {
    SomeAsleep(s.workers) ==> |s.buffer| <= ReadyCount(s.workers)
  }

  ghost predicate Shaped(cfg: Config, s: State) {
    && |s.workers| == cfg.workers
    && (s.buffer != [] ==> |s.buffer| <= Limit(cfg))
    && (s.master.MasterAsleep? ==> |s.buffer| == Limit(cfg))
  }

  ghost predicate Inv(cfg: Config, s: State) {
    Shaped(cfg, s) && Conserving(s) && Kept(s) && InOrder(cfg, s)
  }

  lemma MasterTurnConserves(cfg: Config, s: State, wakes: nat)
    requires Shaped(cfg, s) && Conserving(s) && Enabled(cfg, s, MasterTurn(wakes))
    requires |s.buffer| < Limit(cfg)
    ensures Shaped(cfg, Next(cfg, s, MasterTurn(wakes))) && Conserving(Next(cfg, s, MasterTurn(wakes)))
  {
    var t := Next(cfg, s, MasterTurn(wakes));
    assert |t.buffer| == |s.buffer| + 1;
    if SomeAsleep(t.workers) {
      var w: nat :| IsAt(t.workers, w, Asleep);
      assert IsAt(s.workers, w, Asleep);
      CountUpdated(s.workers, wakes, Ready);
    }
  }

  lemma WorkersConserve(cfg: Config, s: State, w: nat, to: Worker, t: State)
    requires Shaped(cfg, s) && Conserving(s) && w < |s.workers| && t.workers == s.workers[w := to]
    requires t.buffer == s.buffer && t.master == s.master
    requires (!s.workers[w].Ready? && to.Ready?) || s.buffer == []
    ensures Shaped(cfg, t) && Conserving(t)
  {
    CountUpdated(s.workers, w, to);
    if SomeAsleep(t.workers) && s.buffer != [] {
      var v: nat :| IsAt(t.workers, v, Asleep);
      assert IsAt(s.workers, v, Asleep);
    }
  }

  lemma WorkerTakesConserves(cfg: Config, s: State, w: nat)
    requires Shaped(cfg, s) && Conserving(s) && IsAt(s.workers, w, Ready) && s.buffer != []
    ensures Shaped(cfg, Next(cfg, s, WorkerTurn(w))) && Conserving(Next(cfg, s, WorkerTurn(w)))
  {
    var t := Next(cfg, s, WorkerTurn(w));
    CountUpdated(s.workers, w, Serving(s.buffer[0]));
    if SomeAsleep(t.workers) {
      var v: nat :| IsAt(t.workers, v, Asleep);
      assert IsAt(s.workers, v, Asleep);
    }
  }

  lemma StepInv(cfg: Config, s: State, step: Step)
    requires cfg.bufferNum >= 1 && Inv(cfg, s) && Enabled(cfg, s, step)
    ensures Inv(cfg, Next(cfg, s, step))
  {
    var t := Next(cfg, s, step);
    match step
    case Accept(_, _) =>
    case WakeMaster =>
    case MasterTurn(wakes) =>
      if |s.buffer| != Limit(cfg) {
        MasterTurnConserves(cfg, s, wakes);
        PutKeeps(cfg, s, s.master.request, t);
      }
    case WorkerTurn(w) =>
      if s.buffer == [] {
        WorkersConserve(cfg, s, w, Asleep, t);
      } else {
        WorkerTakesConserves(cfg, s, w);
        GetKeeps(cfg, s, t);
      }
    case Finish(w) =>
      WorkersConserve(cfg, s, w, Ready, t);
    case WakeWorker(w) =>
      WorkersConserve(cfg, s, w, Ready, t);
  }

  /** The invariant of the server, in every state of every run. */
  lemma {:induction false} RunInv(cfg: Config, steps: seq<Step>)
    requires cfg.bufferNum >= 1
    ensures Inv(cfg, Run(cfg, steps))
  {
    if steps == [] {
    } else {
      var before := steps[..|steps| - 1];
      RunInv(cfg, before);
      var s := Run(cfg, before);
      if Enabled(cfg, s, steps[|steps| - 1]) {
        StepInv(cfg, s, steps[|steps| - 1]);
      }
    }
  }

  // ---- what follows

  /** Descriptor and size of every connection the run accepted, in order. */
  ghost function Accepted(cfg: Config, steps: seq<Step>): seq<(int, int)> {
    if steps == [] then []
    else
      var front, step := steps[..|steps| - 1], steps[|steps| - 1];
      Accepted(cfg, front)
      + if step.Accept? && Enabled(cfg, Run(cfg, front), step) then [(step.fd, step.size)] else []
  }

  /** The requests carry these descriptors and sizes. */
  ghost predicate Describes(rs: seq<Request>, pairs: seq<(int, int)>) {
    |rs| == |pairs| && forall i :: 0 <= i < |rs| ==> (rs[i].fd, rs[i].size) == pairs[i]
  }

  /** The requests put so far, and then the one the master holds. */
  function PutOrHeld(s: State): seq<Request> {
    if s.master.Accepting? then s.put else s.put + [s.master.request]
  }

  /** What goes into the buffer are the connections accepted, each with its own size, in the order of arrival; only the
      last may still be in the hands of the master. */
  lemma {:induction false} AcceptedInOrder(cfg: Config, steps: seq<Step>)
    ensures Describes(PutOrHeld(Run(cfg, steps)), Accepted(cfg, steps))
  {
    if steps == [] {
    } else {
      var front, step := steps[..|steps| - 1], steps[|steps| - 1];
      AcceptedInOrder(cfg, front);
      if Enabled(cfg, Run(cfg, front), step) && !step.Accept? {
        OnlyAcceptAdds(cfg, Run(cfg, front), step);
      }
    }
  }

  lemma OnlyAcceptAdds(cfg: Config, s: State, step: Step)
    requires Enabled(cfg, s, step) && !step.Accept?
    ensures PutOrHeld(Next(cfg, s, step)) == PutOrHeld(s)
  {
  }

  /** FIFO: the k-th request served is the k-th connection accepted. */
  lemma FifoServesInOrder(cfg: Config, steps: seq<Step>, k: nat)
    requires cfg.bufferNum >= 1 && !cfg.sff && k < |Run(cfg, steps).served|
    ensures Run(cfg, steps).served[k].seqno == k
    ensures Run(cfg, steps).put == Run(cfg, steps).served + Run(cfg, steps).buffer
  {
    RunInv(cfg, steps);
    var s := Run(cfg, steps);
    assert s.put[k] == s.served[k];
  }

  /** FIFO: a worker that finds requests takes the oldest. */
  lemma FifoServesOldest(cfg: Config, steps: seq<Step>, w: nat)
    requires cfg.bufferNum >= 1 && !cfg.sff && Enabled(cfg, Run(cfg, steps), WorkerTurn(w))
    requires Run(cfg, steps).buffer != []
    ensures var s, t := Run(cfg, steps), Run(cfg, steps + [WorkerTurn(w)]);
            && t.workers[w].Serving? && t.workers[w].request.seqno == |s.served|
            && t.served == s.served + [t.workers[w].request]
  {
    RunInv(cfg, steps);
    var s := Run(cfg, steps);
    RunSnoc(cfg, steps, WorkerTurn(w));
    assert s.put[|s.served|] == s.buffer[0];
  }

  lemma {:induction false} CountOne(put: seq<Request>, x: Request)
    requires Numbered(put)
    ensures multiset(put)[x] <= 1
  {
    if put == [] {
    } else {
      var init := put[..|put| - 1];
      assert put == init + [put[|put| - 1]];
      CountOne(init, x);
      if x in init {
        var i :| 0 <= i < |init| && init[i] == x;
        assert put[i].seqno == i;
      }
    }
  }

  lemma PairTwice(served: seq<Request>, a: nat, b: nat)
    requires a < b < |served| && served[a] == served[b]
    ensures multiset(served)[served[a]] >= 2
  {
    assert served == served[..b] + served[b..];
    assert served[a] in served[..b] && served[b] in served[b..];
  }

  /** Either policy: no request is lost, and none is served twice. */
  lemma ServedOnce(cfg: Config, steps: seq<Step>)
    requires cfg.bufferNum >= 1
    ensures var s := Run(cfg, steps);
            && multiset(s.put) == multiset(s.served) + multiset(s.buffer)
            && forall a, b :: 0 <= a < b < |s.served| ==> s.served[a].seqno != s.served[b].seqno
  {
    RunInv(cfg, steps);
    var s := Run(cfg, steps);
    forall a, b | 0 <= a < b < |s.served| ensures s.served[a].seqno != s.served[b].seqno {
      Waiting(s, s.served[a]);
      Waiting(s, s.served[b]);
      if s.served[a] == s.served[b] {
        PairTwice(s.served, a, b);
        CountOne(s.put, s.served[a]);
      }
    }
  }

  /** SFF: of two requests in the buffer's history, the one that came first and is not larger is served first. */
  lemma SffNoOvertaking(cfg: Config, steps: seq<Step>, i: nat, j: nat, b: nat)
    requires cfg.bufferNum >= 1 && cfg.sff
    requires i < j < |Run(cfg, steps).put| && Run(cfg, steps).put[i].size <= Run(cfg, steps).put[j].size
    requires b < |Run(cfg, steps).served| && Run(cfg, steps).served[b] == Run(cfg, steps).put[j]
    ensures exists a :: 0 <= a < b && Run(cfg, steps).served[a] == Run(cfg, steps).put[i]
  {
    RunInv(cfg, steps);
    var s := Run(cfg, steps);
    assert Before(s.put[i], s.served[b]) && s.put[i] in s.served[..b];
    var a :| 0 <= a < b && s.served[..b][a] == s.put[i];
    assert s.served[a] == s.put[i];
  }

  /** SFF: a worker always takes the smallest waiting request, the earliest of equals. */
  lemma SffServesSmallest(cfg: Config, steps: seq<Step>, w: nat, x: Request)
    requires cfg.bufferNum >= 1 && cfg.sff && Enabled(cfg, Run(cfg, steps), WorkerTurn(w))
    requires x in Run(cfg, steps).buffer
    ensures var t := Run(cfg, steps + [WorkerTurn(w)]);
            && t.workers[w].Serving? && t.workers[w].request == t.served[|t.served| - 1]
            && (t.workers[w].request == x || Before(t.workers[w].request, x))
  {
    RunInv(cfg, steps);
    var s := Run(cfg, steps);
    var i :| 0 <= i < |s.buffer| && s.buffer[i] == x;
    assert (steps + [WorkerTurn(w)])[..|steps|] == steps;
  }

  /** Work conservation: no worker sleeps while more requests wait than idle workers are awake to take; the master
      sleeps only when the buffer is full, which for smallest-file-first is one short of its size. */
  lemma WorkConservation(cfg: Config, steps: seq<Step>)
    requires cfg.bufferNum >= 1
    ensures var s, most := Run(cfg, steps), if cfg.sff then cfg.bufferNum - 1 else cfg.bufferNum;
            && (SomeAsleep(s.workers) ==> |s.buffer| <= ReadyCount(s.workers))
            && (s.master.MasterAsleep? ==> |s.buffer| == most)
            && |s.buffer| <= most
  {
    RunInv(cfg, steps);
  }

  /** Whoever puts finds room in the array. */
  lemma RoomForPut(cfg: Config, steps: seq<Step>, step: Step)
    requires cfg.bufferNum >= 1 && Enabled(cfg, Run(cfg, steps), step)
    ensures Next(cfg, Run(cfg, steps), step).put != Run(cfg, steps).put ==> |Run(cfg, steps).buffer| < cfg.bufferNum
  {
    RunInv(cfg, steps);
    OnlyMasterPuts(cfg, Run(cfg, steps), step);
  }

  lemma OnlyMasterPuts(cfg: Config, s: State, step: Step)
    requires Enabled(cfg, s, step)
    ensures Next(cfg, s, step).put != s.put ==> step.MasterTurn? && |s.buffer| != Limit(cfg)
  {
  }

  // ---- deadlock

  ghost predicate AllAsleep(s: State) {
    s.master.MasterAsleep? && forall w :: 0 <= w < |s.workers| ==> s.workers[w].Asleep?
  }

  /** Some run ends with every thread asleep. */
  ghost predicate CanDeadlock(cfg: Config) {
    exists steps :: AllAsleep(Run(cfg, steps))
  }

  lemma NeverAllAsleep(cfg: Config, steps: seq<Step>)
    requires cfg.bufferNum >= 1 && cfg.workers >= 1 && Limit(cfg) >= 1
    ensures !AllAsleep(Run(cfg, steps))
  {
    RunInv(cfg, steps);
    var s := Run(cfg, steps);
    if AllAsleep(s) {
      assert IsAt(s.workers, 0, Asleep);
      NoneReady(s.workers);
    }
  }

  /** Workers `0` to `n-1` find the buffer empty and fall asleep. */
  lemma {:induction false} FirstAsleep(cfg: Config, n: nat) returns (steps: seq<Step>)
    requires n <= cfg.workers
    ensures var s := Run(cfg, steps);
            && s.buffer == [] && s.put == [] && s.master == Accepting
            && |s.workers| == cfg.workers
            && forall w :: 0 <= w < cfg.workers ==> s.workers[w] == if w < n then Asleep else Ready
  {
    steps := [];
    if n == 0 {
    } else {
      steps := FirstAsleep(cfg, n - 1);
      RunSnoc(cfg, steps, WorkerTurn(n - 1));
      steps := steps + [WorkerTurn(n - 1)];
    }
  }

  /** Without workers the master fills the buffer. */
  lemma {:induction false} Filled(cfg: Config, n: nat) returns (steps: seq<Step>)
    requires cfg.workers == 0 && n <= Limit(cfg)
    ensures var s := Run(cfg, steps); |s.buffer| == n && s.master == Accepting && s.workers == []
  {
    steps := [];
    if n == 0 {
    } else {
      var before := Filled(cfg, n - 1);
      RunSnoc(cfg, before, Accept(0, 0));
      RunSnoc(cfg, before + [Accept(0, 0)], MasterTurn(0));
      steps := before + [Accept(0, 0)] + [MasterTurn(0)];
    }
  }

  lemma MasterSticks(cfg: Config, before: seq<Step>)
    requires var s := Run(cfg, before); s.master == Accepting && |s.buffer| == Limit(cfg)
    requires forall w :: 0 <= w < |Run(cfg, before).workers| ==> Run(cfg, before).workers[w].Asleep?
    ensures CanDeadlock(cfg)
  {
    RunSnoc(cfg, before, Accept(0, 0));
    RunSnoc(cfg, before + [Accept(0, 0)], MasterTurn(0));
    assert AllAsleep(Run(cfg, before + [Accept(0, 0)] + [MasterTurn(0)]));
  }

  /** With smallest-file-first and a buffer of one, no request ever gets into the buffer, let alone served. */
  lemma {:induction false} NothingServed(cfg: Config, steps: seq<Step>)
    requires cfg.sff && cfg.bufferNum == 1
    ensures Run(cfg, steps).served == [] && Run(cfg, steps).put == [] && Run(cfg, steps).buffer == []
    ensures forall w :: 0 <= w < |Run(cfg, steps).workers| ==> !Run(cfg, steps).workers[w].Serving?
  {
    if steps == [] {
    } else {
      NothingServed(cfg, steps[..|steps| - 1]);
    }
  }

  /** The server can lock up exactly when it has no worker, or serves smallest-file-first with a buffer of one: the
      master then waits for room that the test `count == buffer_num-1` never grants. */
  lemma DeadlockExactly(cfg: Config)
    requires cfg.bufferNum >= 1
    ensures CanDeadlock(cfg) <==> cfg.workers == 0 || (cfg.sff && cfg.bufferNum == 1)
  {
    if cfg.workers == 0 {
      var steps := Filled(cfg, Limit(cfg));
      MasterSticks(cfg, steps);
    } else if cfg.sff && cfg.bufferNum == 1 {
      var steps := FirstAsleep(cfg, cfg.workers);
      MasterSticks(cfg, steps);
    } else {
      forall steps: seq<Step> ensures !AllAsleep(Run(cfg, steps)) {
        NeverAllAsleep(cfg, steps);
      }
    }
  }
}
