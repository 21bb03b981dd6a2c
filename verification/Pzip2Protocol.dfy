/** concurrency-pzip/wzip/pzip2.c: the file handler and the workers that claim buffers by index, as a step machine.

    `splitExit` chooses how the exit test of `compressText` is taken: it reads `index_cthread`, `listsize` and
    `handleFile_finish` without the lock.  With `splitExit` each read is its own step, as in the code; without it the
    test is one step.  The two additions to `listsize` for one file (lines 62 and 64) are one step here. */
module Pzip2Protocol {
  import opened Rle
  import opened Records
  import opened Pzip3Pages
  import Pzip2
  import Wzip

  datatype Config = Config(files: seq<seq<byte>>, bufferSize: nat, workers: nat, splitExit: bool)

  datatype Handler =
    | HSize(i: nat)           // line 57, measuring file i
    | HFill(i: nat, j: nat)   // line 85, about to store buffer j of file i
    | HCount(i: nat, j: nat)  // line 100, about to count it
    | HFinish                 // line 104
    | HDone

  datatype Worker =
    | WTop                    // line 158
    | WCompress(k: nat)       // line 168
    | WExit                   // line 172, about to read index_cthread
    | WExitSize(seen: nat)    // line 172, about to compare what it read with listsize
    | WExitFinish             // line 172, about to read handleFile_finish
    | WDone

  datatype State = State(
    listsize: nat, count: nat, finish: bool, index: nat, bufferlist: map<nat, Page>, results: map<nat, seq<Run>>,
    handler: Handler, workers: seq<Worker>)

  datatype Step = HandlerStep | WorkerStep(c: nat)

  ghost predicate ConfigOk(cfg: Config) {
    cfg.bufferSize > 0
  }

  function Init(cfg: Config): State {
    State(0, 0, false, 0, map[], map[], HSize(0), seq(cfg.workers, _ => WTop))
  }

  function Buffers(cfg: Config, i: nat): nat
    requires ConfigOk(cfg) && i < |cfg.files|
  {
    PagesInFile(|cfg.files[i]|, cfg.bufferSize)
  }

  function HandlerNext(cfg: Config, s: State): State
    requires ConfigOk(cfg)
  {
    match s.handler
    case HSize(i) =>
      if i < |cfg.files| then s.(listsize := s.listsize + Buffers(cfg, i), handler := HSize(i + 1))
      else s.(handler := HFill(0, 0))
    case HFill(i, j) =>
      if i >= |cfg.files| then s.(handler := HFinish)
      else if j < Buffers(cfg, i) then
        Pzip2.SameCut(|cfg.files[i]|, i, j, cfg.bufferSize);
        s.(bufferlist := s.bufferlist[s.count := Pzip2.BufferOf(|cfg.files[i]|, i, j, cfg.bufferSize)],
           handler := HCount(i, j))
      else s.(handler := HFill(i + 1, 0))
    case HCount(i, j) => s.(count := s.count + 1, handler := HFill(i, j + 1))
    case HFinish => s.(finish := true, handler := HDone)
    case HDone => s
  }

  function WorkerNext(cfg: Config, s: State, c: nat): State
    requires c < |s.workers|
  {
    match s.workers[c]
    case WTop =>
      if s.index < s.count then s.(index := s.index + 1, workers := s.workers[c := WCompress(s.index)])
      else s.(workers := s.workers[c := WExit])
    case WCompress(k) =>
      s.(results :=
           if k in s.bufferlist then s.results[k := Encode(Content(cfg.files, s.bufferlist[k]))] else s.results,
         workers := s.workers[c := WExit])
    case WExit =>
      if cfg.splitExit then s.(workers := s.workers[c := WExitSize(s.index)])
      else s.(workers := s.workers[c := if s.index == s.listsize && s.finish then WDone else WTop])
    case WExitSize(seen) => s.(workers := s.workers[c := if seen == s.listsize then WExitFinish else WTop])
    case WExitFinish => s.(workers := s.workers[c := if s.finish then WDone else WTop])
    case WDone => s
  }

  function Next(cfg: Config, s: State, step: Step): State
    requires ConfigOk(cfg)
  {
    match step
    case HandlerStep => HandlerNext(cfg, s)
    case WorkerStep(c) => if c < |s.workers| then WorkerNext(cfg, s, c) else s
  }

  function Exec(cfg: Config, steps: seq<Step>): State
    requires ConfigOk(cfg)
  {
    if steps == [] then Init(cfg) else Next(cfg, Exec(cfg, steps[..|steps| - 1]), steps[|steps| - 1])
  }

  // ---- the invariant

  function All(cfg: Config): seq<Page>
    requires ConfigOk(cfg)
  {
    AllPages(cfg.files, cfg.bufferSize)
  }

  ghost predicate HandlerInv(cfg: Config, s: State)
    requires ConfigOk(cfg)
  {
    && (s.handler.HSize? ==>
          && s.handler.i <= |cfg.files| && s.count == 0
          && s.listsize == FirstPage(cfg.files, cfg.bufferSize, s.handler.i))
    && (!s.handler.HSize? ==> s.listsize == |All(cfg)|)
    && (s.handler.HFill? ==>
          s.handler.i <= |cfg.files|
          && (if s.handler.i == |cfg.files| then s.handler.j == 0 else s.handler.j <= Buffers(cfg, s.handler.i))
          && s.count == FirstPage(cfg.files, cfg.bufferSize, s.handler.i) + s.handler.j)
    && (s.handler.HCount? ==>
          s.handler.i < |cfg.files| && s.handler.j < Buffers(cfg, s.handler.i)
          && s.count == FirstPage(cfg.files, cfg.bufferSize, s.handler.i) + s.handler.j)
    && (s.handler.HFinish? || s.handler.HDone? ==> s.count == |All(cfg)|)
    && (s.finish <==> s.handler.HDone?)
    && s.count <= |All(cfg)|
  }

  /** A buffer is stored before it is counted. */
  ghost predicate BufferInv(cfg: Config, s: State)
    requires ConfigOk(cfg)
  {
    && s.count <= |All(cfg)|
    && forall k :: 0 <= k < s.count ==> k in s.bufferlist && s.bufferlist[k] == All(cfg)[k]
  }

  /** Between the store and the count, the new buffer is there. */
  ghost predicate StoredInv(cfg: Config, s: State)
    requires ConfigOk(cfg)
  {
    s.handler.HCount? ==> s.count < |All(cfg)| && s.count in s.bufferlist && s.bufferlist[s.count] == All(cfg)[s.count]
  }

  /** A claimed buffer is filled, belongs to one worker, and is not compressed yet. */
  ghost predicate ClaimInv(cfg: Config, s: State)
    requires ConfigOk(cfg)
  {
    && s.index <= s.count
    && (forall c :: 0 <= c < |s.workers| && s.workers[c].WCompress? ==>
          s.workers[c].k < s.index && s.workers[c].k !in s.results)
    && (forall c, d :: 0 <= c < d < |s.workers| && s.workers[c].WCompress? && s.workers[d].WCompress? ==>
          s.workers[c].k != s.workers[d].k)
  }

  /** Every result is the compressed form of its buffer. */
  ghost predicate Resulted(cfg: Config, s: State)
    requires ConfigOk(cfg)
  {
    forall k :: k in s.results ==>
      k < s.index && k < |All(cfg)| && s.results[k] == Encode(Content(cfg.files, All(cfg)[k]))
  }

  /** Every claimed buffer is compressed or being compressed. */
  ghost predicate CoveredInv(s: State) {
    forall k :: 0 <= k < s.index ==> k in s.results || Claimed(s, k)
  }

  ghost predicate Claimed(s: State, k: nat) {
    exists c :: 0 <= c < |s.workers| && s.workers[c] == WCompress(k)
  }

  ghost predicate ResultInv(cfg: Config, s: State)
    requires ConfigOk(cfg)
  {
    Resulted(cfg, s) && CoveredInv(s)
  }

  ghost predicate Inv(cfg: Config, s: State) {
    && ConfigOk(cfg) && |s.workers| == cfg.workers
    && HandlerInv(cfg, s) && BufferInv(cfg, s) && ClaimInv(cfg, s) && ResultInv(cfg, s)
  }

  lemma HandlerKeepsHandler(cfg: Config, s: State)
    requires ConfigOk(cfg) && HandlerInv(cfg, s)
    ensures HandlerInv(cfg, HandlerNext(cfg, s))
  {
    var h := s.handler;
    if (h.HFill? || h.HCount?) && h.i < |cfg.files| {
      FirstPageMonotone(cfg.files, cfg.bufferSize, h.i + 1, |cfg.files|);
    }
  }

  lemma HandlerKeepsBuffers(cfg: Config, s: State)
    requires ConfigOk(cfg) && HandlerInv(cfg, s) && BufferInv(cfg, s) && StoredInv(cfg, s)
    ensures BufferInv(cfg, HandlerNext(cfg, s)) && StoredInv(cfg, HandlerNext(cfg, s))
  {
    var h := s.handler;
    if h.HFill? && h.i < |cfg.files| && h.j < Buffers(cfg, h.i) {
      Pzip2.SameCut(|cfg.files[h.i]|, h.i, h.j, cfg.bufferSize);
      PageAt(cfg.files, cfg.bufferSize, |cfg.files|, h.i, h.j);
    }
  }

  lemma HandlerKeepsRest(cfg: Config, s: State)
    requires Inv(cfg, s)
    ensures var t := HandlerNext(cfg, s);
      ClaimInv(cfg, t) && ResultInv(cfg, t)
  {
    var s' := HandlerNext(cfg, s);
    assert s'.workers == s.workers && s'.results == s.results && s'.index == s.index && s'.count >= s.count;
    forall k | 0 <= k < s'.index ensures k in s'.results || Claimed(s', k) {
      assert k in s.results || Claimed(s, k);
    }
  }

  lemma WorkerKeepsOutput(cfg: Config, s: State, c: nat)
    requires Inv(cfg, s) && c < |s.workers|
    ensures ResultInv(cfg, WorkerNext(cfg, s, c))
  {
    if s.workers[c].WCompress? {
      Claim(cfg, s, c);
      WorkerKeepsResults(cfg, s, c);
    } else {
      WorkerLeavesResults(cfg, s, c);
    }
    WorkerKeepsCovered(cfg, s, c);
  }

  lemma Claim(cfg: Config, s: State, c: nat)
    requires Inv(cfg, s) && c < |s.workers| && s.workers[c].WCompress?
    ensures var k := s.workers[c].k;
      k < s.index && k in s.bufferlist && k < |All(cfg)| && s.bufferlist[k] == All(cfg)[k]
  {
  }

  lemma WorkerKeepsResults(cfg: Config, s: State, c: nat)
    requires ConfigOk(cfg) && Resulted(cfg, s) && c < |s.workers| && s.workers[c].WCompress?
    requires var k := s.workers[c].k;
      k < s.index && k in s.bufferlist && k < |All(cfg)| && s.bufferlist[k] == All(cfg)[k]
    ensures Resulted(cfg, WorkerNext(cfg, s, c))
  {
  }

  lemma WorkerLeavesResults(cfg: Config, s: State, c: nat)
    requires ConfigOk(cfg) && Resulted(cfg, s) && c < |s.workers| && !s.workers[c].WCompress?
    ensures Resulted(cfg, WorkerNext(cfg, s, c))
  {
  }

  lemma WorkerKeepsCovered(cfg: Config, s: State, c: nat)
    requires CoveredInv(s) && c < |s.workers|
    requires s.workers[c].WCompress? ==> s.workers[c].k in s.bufferlist
    ensures CoveredInv(WorkerNext(cfg, s, c))
  {
    var s' := WorkerNext(cfg, s, c);
    forall k | 0 <= k < s'.index ensures k in s'.results || Claimed(s', k) {
      if k < s.index {
        assert k in s.results || Claimed(s, k);
        if k !in s.results {
          var d :| 0 <= d < |s.workers| && s.workers[d] == WCompress(k);
          assert d != c ==> s'.workers[d] == WCompress(k);
        }
      } else {
        assert s'.workers[c] == WCompress(k);
      }
    }
  }

  lemma WorkerKeepsClaims(cfg: Config, s: State, c: nat)
    requires ConfigOk(cfg) && c < |s.workers| && ClaimInv(cfg, s)
    requires forall k :: k in s.results ==> k < s.index
    ensures ClaimInv(cfg, WorkerNext(cfg, s, c))
  {
    var s' := WorkerNext(cfg, s, c);
    assert forall d :: 0 <= d < |s.workers| && d != c ==> s'.workers[d] == s.workers[d];
    if s.workers[c].WTop? && s.index < s.count {
      assert s'.workers[c] == WCompress(s.index) && s'.results == s.results;
    } else {
      assert !s'.workers[c].WCompress? && s'.index == s.index;
    }
  }

  lemma WorkerKeepsHandler(cfg: Config, s: State, c: nat)
    requires ConfigOk(cfg) && c < |s.workers| && HandlerInv(cfg, s) && BufferInv(cfg, s) && StoredInv(cfg, s)
    ensures var s' := WorkerNext(cfg, s, c);
      HandlerInv(cfg, s') && BufferInv(cfg, s') && StoredInv(cfg, s') && |s'.workers| == |s.workers|
  {
    WorkerFrame(cfg, s, c);
    HandlerSame(cfg, s, WorkerNext(cfg, s, c));
    BuffersSame(cfg, s, WorkerNext(cfg, s, c));
  }

  /** A worker leaves alone what the handler writes. */
  lemma WorkerFrame(cfg: Config, s: State, c: nat)
    requires c < |s.workers|
    ensures var s' := WorkerNext(cfg, s, c);
      && s'.handler == s.handler && s'.count == s.count && s'.listsize == s.listsize && s'.finish == s.finish
      && s'.bufferlist == s.bufferlist && |s'.workers| == |s.workers|
  {
  }

  lemma HandlerSame(cfg: Config, s: State, t: State)
    requires ConfigOk(cfg) && HandlerInv(cfg, s)
    requires t.handler == s.handler && t.count == s.count && t.listsize == s.listsize && t.finish == s.finish
    ensures HandlerInv(cfg, t)
  {
  }

  lemma BuffersSame(cfg: Config, s: State, t: State)
    requires ConfigOk(cfg) && BufferInv(cfg, s) && StoredInv(cfg, s)
    requires t.handler == s.handler && t.count == s.count && t.bufferlist == s.bufferlist
    ensures BufferInv(cfg, t) && StoredInv(cfg, t)
  {
  }

  lemma WorkerStepInv(cfg: Config, s: State, c: nat)
    requires Inv(cfg, s) && StoredInv(cfg, s) && c < |s.workers|
    ensures Inv(cfg, WorkerNext(cfg, s, c)) && StoredInv(cfg, WorkerNext(cfg, s, c))
  {
    WorkerKeepsHandler(cfg, s, c);
    WorkerKeepsOutput(cfg, s, c);
    WorkerKeepsClaims(cfg, s, c);
  }

  lemma HandlerStepInv(cfg: Config, s: State)
    requires Inv(cfg, s) && StoredInv(cfg, s)
    ensures Inv(cfg, HandlerNext(cfg, s)) && StoredInv(cfg, HandlerNext(cfg, s))
  {
    HandlerKeepsHandler(cfg, s);
    HandlerKeepsBuffers(cfg, s);
    HandlerKeepsRest(cfg, s);
  }

  lemma {:induction false} RunInv(cfg: Config, steps: seq<Step>)
    requires ConfigOk(cfg)
    ensures Inv(cfg, Exec(cfg, steps)) && StoredInv(cfg, Exec(cfg, steps))
  {
    if steps == [] {
    } else {
      var s, step := Exec(cfg, steps[..|steps| - 1]), steps[|steps| - 1];
      RunInv(cfg, steps[..|steps| - 1]);
      match step {
        case HandlerStep => HandlerStepInv(cfg, s);
        case WorkerStep(c) => if c < |s.workers| { WorkerStepInv(cfg, s, c); }
      }
    }
  }

  // ---- what holds of every run

  ghost predicate AllReturned(s: State) {
    |s.workers| > 0 && forall c :: 0 <= c < |s.workers| ==> s.workers[c].WDone?
  }

  /** A claimed buffer is already filled, with the right contents, and no one has compressed or claimed it before. */
  lemma ClaimsFilledBuffersOnce(cfg: Config, steps: seq<Step>, c: nat)
    requires ConfigOk(cfg) && c < |Exec(cfg, steps).workers| && Exec(cfg, steps).workers[c].WCompress?
    ensures var s := Exec(cfg, steps);
      var k := s.workers[c].k;
      && k < s.count && k in s.bufferlist && k < |All(cfg)| && s.bufferlist[k] == All(cfg)[k]
      && k !in s.results
      && (forall d :: 0 <= d < |s.workers| && d != c ==> s.workers[d] != WCompress(k))
  {
    RunInv(cfg, steps);
  }

  /** The record lists `output` is given. */
  function ResultList(s: State): (r: seq<seq<Run>>)
    requires forall k :: 0 <= k < s.listsize ==> k in s.results
    ensures |r| == s.listsize && forall k :: 0 <= k < s.listsize ==> r[k] == s.results[k]
  {
    seq(s.listsize, k requires 0 <= k < s.listsize && k in s.results => s.results[k])
  }

  // ---- exit tests that come late enough

  /** An exit test that finds `index_cthread` equal to `listsize` while the handler is still measuring files. */
  ghost predicate EarlyTest(s: State, step: Step) {
    && step.WorkerStep? && step.c < |s.workers| && s.workers[step.c] == WExitSize(s.listsize)
    && s.handler.HSize?
  }

  /** No exit test of the run is early. */
  ghost predicate LateTests(cfg: Config, steps: seq<Step>)
    requires ConfigOk(cfg)
  {
    steps == [] ||
    (LateTests(cfg, steps[..|steps| - 1]) && !EarlyTest(Exec(cfg, steps[..|steps| - 1]), steps[|steps| - 1]))
  }

  /** Then a worker passes the test, and returns, only when every buffer is claimed. */
  ghost predicate LateInv(cfg: Config, s: State)
    requires ConfigOk(cfg)
  {
    forall c :: 0 <= c < |s.workers| ==> Late(cfg, s, s.workers[c])
  }

  ghost predicate Late(cfg: Config, s: State, w: Worker)
    requires ConfigOk(cfg)
  {
    && (w.WExitSize? ==> cfg.splitExit && w.seen <= s.index)
    && (w.WExitFinish? ==> s.index == |All(cfg)| && !s.handler.HSize?)
    && (w.WDone? ==> s.finish && s.index == |All(cfg)|)
  }

  lemma StepLate(cfg: Config, s: State, step: Step)
    requires Inv(cfg, s) && LateInv(cfg, s) && !EarlyTest(s, step)
    ensures LateInv(cfg, Next(cfg, s, step))
  {
    match step
    case HandlerStep =>
      HandlerAlone(cfg, s);
    case WorkerStep(c) =>
      if c < |s.workers| {
        WorkerLate(cfg, s, c);
      }
  }

  lemma HandlerAlone(cfg: Config, s: State)
    requires ConfigOk(cfg)
    ensures var t := HandlerNext(cfg, s);
      && t.workers == s.workers && t.results == s.results && t.index == s.index && (s.finish ==> t.finish)
      && (!s.handler.HSize? ==> !t.handler.HSize?)
  {
  }

  lemma WorkerLate(cfg: Config, s: State, c: nat)
    requires ConfigOk(cfg) && c < |s.workers| && LateInv(cfg, s) && !EarlyTest(s, WorkerStep(c))
    requires HandlerInv(cfg, s) && s.index <= s.count
    ensures LateInv(cfg, WorkerNext(cfg, s, c))
  {
    var t := WorkerNext(cfg, s, c);
    forall d | 0 <= d < |t.workers| ensures Late(cfg, t, t.workers[d]) {
      assert Late(cfg, s, s.workers[d]);
      if d != c {
        assert t.workers[d] == s.workers[d];
      }
    }
  }

  lemma {:induction false} RunLate(cfg: Config, steps: seq<Step>)
    requires ConfigOk(cfg) && LateTests(cfg, steps)
    ensures LateInv(cfg, Exec(cfg, steps))
  {
    if steps == [] {
    } else {
      RunLate(cfg, steps[..|steps| - 1]);
      RunInv(cfg, steps[..|steps| - 1]);
      StepLate(cfg, Exec(cfg, steps[..|steps| - 1]), steps[|steps| - 1]);
    }
  }

  /** What the run leaves for `output`, and what `output` writes. */
  ghost predicate Compressed(cfg: Config, s: State)
    requires ConfigOk(cfg)
  {
    var input := Flatten(cfg.files);
    && s.handler.HDone? && s.listsize == |All(cfg)|
    && (forall k :: k in s.results <==> 0 <= k < s.listsize)
    && (forall k :: 0 <= k < s.listsize ==> s.results[k] != [])
    && Pzip2.CountRuns(ResultList(s)) <= |input|
    && Serialize(Stitch(ResultList(s))) == Serialize(Encode(input))
    && (input != [] <==> Serialize(Stitch(ResultList(s))) == Serialize(Wzip.InputRuns(input)))
  }

  /** For the exit test as the code takes it, read by read: if no test of the run is early, then when all workers have
      returned every buffer is compressed, and what `output` writes is the canonical compression of all files laid end
      to end, for every schedule and buffer size. */
  lemma LateTestsCompress(cfg: Config, steps: seq<Step>)
    requires ConfigOk(cfg) && LateTests(cfg, steps) && AllReturned(Exec(cfg, steps))
    ensures Compressed(cfg, Exec(cfg, steps))
  {
    RunInv(cfg, steps);
    RunLate(cfg, steps);
    assert Exec(cfg, steps).workers[0].WDone?;
    AllFilled(cfg, Exec(cfg, steps));
    FilledCompresses(cfg, Exec(cfg, steps));
  }

  lemma {:induction false} OneStepIsLate(cfg: Config, steps: seq<Step>)
    requires ConfigOk(cfg) && !cfg.splitExit
    ensures LateTests(cfg, steps)
  {
    if steps == [] {
    } else {
      OneStepIsLate(cfg, steps[..|steps| - 1]);
      RunLate(cfg, steps[..|steps| - 1]);
    }
  }

  /** With the exit test taken in one step that holds of every run. */
  lemma AnyScheduleCompresses(cfg: Config, steps: seq<Step>)
    requires ConfigOk(cfg) && !cfg.splitExit && AllReturned(Exec(cfg, steps))
    ensures Compressed(cfg, Exec(cfg, steps))
  {
    OneStepIsLate(cfg, steps);
    LateTestsCompress(cfg, steps);
  }

  /** When all have returned and every buffer was claimed, the results are the compressed buffers, one each. */
  lemma AllFilled(cfg: Config, s: State)
    requires ConfigOk(cfg) && AllReturned(s) && Inv(cfg, s) && s.finish && s.index == |All(cfg)|
    ensures s.handler.HDone? && Filled(cfg, s)
  {
    forall k | 0 <= k < s.listsize ensures k in s.results && s.results[k] != [] {
      var i, j := PageLookup(cfg.files, cfg.bufferSize, |cfg.files|, k);
      EncodeCorrect(Content(cfg.files, All(cfg)[k]));
    }
  }

  ghost predicate Filled(cfg: Config, s: State)
    requires ConfigOk(cfg)
  {
    && s.listsize == |All(cfg)|
    && (forall k :: k in s.results <==> 0 <= k < s.listsize)
    && (forall k :: 0 <= k < s.listsize ==>
          s.results[k] != [] && s.results[k] == Encode(Content(cfg.files, All(cfg)[k])))
  }

  lemma FilledCompresses(cfg: Config, s: State)
    requires ConfigOk(cfg) && Filled(cfg, s)
    ensures var input := Flatten(cfg.files);
      && Pzip2.CountRuns(ResultList(s)) <= |input|
      && Serialize(Stitch(ResultList(s))) == Serialize(Encode(input))
      && (input != [] <==> Serialize(Stitch(ResultList(s))) == Serialize(Wzip.InputRuns(input)))
  {
    var pages := PageContents(cfg.files, All(cfg));
    assert ResultList(s) == EncodeEach(pages);
    StitchCorrect(pages);
    PagesTile(cfg.files, cfg.bufferSize, |cfg.files|);
    assert cfg.files[..|cfg.files|] == cfg.files;
    CountRunsBounded(pages);
  }

  lemma {:induction false} CountRunsBounded(pages: seq<seq<byte>>)
    ensures Pzip2.CountRuns(EncodeEach(pages)) <= |Flatten(pages)|
  {
    if pages == [] {
    } else {
      var front := pages[..|pages| - 1];
      CountRunsBounded(front);
      assert EncodeEach(pages)[..|pages| - 1] == EncodeEach(front);
      EncodeCorrect(pages[|pages| - 1]);
    }
  }

  // ---- the exit test as the code takes it

  lemma ExecSnoc(cfg: Config, steps: seq<Step>, step: Step)
    requires ConfigOk(cfg)
    ensures Exec(cfg, steps + [step]) == Next(cfg, Exec(cfg, steps), step)
  {
    assert (steps + [step])[..|steps|] == steps;
  }

  /** The state in which the first `n` workers have seen 0 buffers listed and 0 buffers claimed. */
  function EarlyState(cfg: Config, n: nat): State {
    Init(cfg).(workers := seq(cfg.workers, c => if c < n then WExitFinish else WTop))
  }

  lemma {:induction false} WorkersLookEarly(cfg: Config, n: nat) returns (steps: seq<Step>)
    requires ConfigOk(cfg) && cfg.splitExit && n <= cfg.workers
    ensures Exec(cfg, steps) == EarlyState(cfg, n)
  {
    if n == 0 {
      steps := [];
      assert EarlyState(cfg, 0).workers == Init(cfg).workers;
    } else {
      steps := WorkersLookEarly(cfg, n - 1);
      steps := OneLooksEarly(cfg, steps, n - 1);
    }
  }

  /** Three steps of worker `n`: nothing to claim, 0 buffers claimed, 0 buffers listed. */
  lemma OneLooksEarly(cfg: Config, steps: seq<Step>, n: nat) returns (more: seq<Step>)
    requires ConfigOk(cfg) && cfg.splitExit && n < cfg.workers && Exec(cfg, steps) == EarlyState(cfg, n)
    ensures Exec(cfg, more) == EarlyState(cfg, n + 1)
  {
    var s, step := EarlyState(cfg, n), WorkerStep(n);
    var t := s.(workers := s.workers[n := WExit]);
    var u := t.(workers := t.workers[n := WExitSize(0)]);
    ExecSnoc(cfg, steps, step);
    assert Exec(cfg, steps + [step]) == t;
    ExecSnoc(cfg, steps + [step], step);
    assert Exec(cfg, steps + [step] + [step]) == u;
    ExecSnoc(cfg, steps + [step] + [step], step);
    assert u.workers[n := WExitFinish] == EarlyState(cfg, n + 1).workers;
    more := steps + [step] + [step] + [step];
  }

  function Phase(cfg: Config, h: Handler): nat {
    if h.HSize? then 3 else if h.HFill? || h.HCount? then 2 else if h.HFinish? then 1 else 0
  }

  function FilesLeft(cfg: Config, h: Handler): nat {
    if (h.HSize? || h.HFill? || h.HCount?) && h.i < |cfg.files| then |cfg.files| - h.i else 0
  }

  function BuffersLeft(cfg: Config, h: Handler): int
    requires ConfigOk(cfg)
  {
    if h.HFill? && h.i < |cfg.files| then 2 * (Buffers(cfg, h.i) - h.j) + 1
    else if h.HCount? && h.i < |cfg.files| then 2 * (Buffers(cfg, h.i) - h.j)
    else 0
  }

  /** Left alone, the handler finishes. */
  lemma {:induction false} HandlerFinishes(cfg: Config, steps: seq<Step>) returns (more: seq<Step>)
    requires ConfigOk(cfg)
    ensures var s, t := Exec(cfg, steps), Exec(cfg, more);
      t.handler.HDone? && t.workers == s.workers && t.results == s.results && t.index == s.index
    ensures LateTests(cfg, steps) ==> LateTests(cfg, more)
    decreases Phase(cfg, Exec(cfg, steps).handler), FilesLeft(cfg, Exec(cfg, steps).handler),
              BuffersLeft(cfg, Exec(cfg, steps).handler)
  {
    if Exec(cfg, steps).handler.HDone? {
      more := steps;
    } else {
      RunInv(cfg, steps);
      HandlerProgress(cfg, Exec(cfg, steps));
      ExecSnoc(cfg, steps, HandlerStep);
      assert (steps + [HandlerStep])[..|steps|] == steps;
      more := HandlerFinishes(cfg, steps + [HandlerStep]);
    }
  }

  lemma HandlerProgress(cfg: Config, s: State)
    requires ConfigOk(cfg) && HandlerInv(cfg, s) && !s.handler.HDone?
    ensures var t := HandlerNext(cfg, s);
      && t.workers == s.workers && t.results == s.results && t.index == s.index
      && (|| Phase(cfg, t.handler) < Phase(cfg, s.handler)
          || (Phase(cfg, t.handler) == Phase(cfg, s.handler)
              && (|| FilesLeft(cfg, t.handler) < FilesLeft(cfg, s.handler)
                  || (FilesLeft(cfg, t.handler) == FilesLeft(cfg, s.handler)
                      && 0 <= BuffersLeft(cfg, t.handler) < BuffersLeft(cfg, s.handler)))))
  {
  }

  /** The state in which the handler is done and the last `n` workers have yet to finish their exit test. */
  lemma {:induction false} WorkersLeave(cfg: Config, steps: seq<Step>, n: nat) returns (more: seq<Step>)
    requires ConfigOk(cfg) && n <= cfg.workers == |Exec(cfg, steps).workers| && Exec(cfg, steps).handler.HDone?
    requires Exec(cfg, steps).finish && Exec(cfg, steps).results == map[]
    requires forall c :: 0 <= c < n ==> Exec(cfg, steps).workers[c].WExitFinish?
    requires forall c :: n <= c < cfg.workers ==> Exec(cfg, steps).workers[c].WDone?
    ensures var s := Exec(cfg, more);
      |s.workers| == cfg.workers && (forall c :: 0 <= c < |s.workers| ==> s.workers[c].WDone?) && s.results == map[]
    decreases n
  {
    more := steps;
    if n == 0 {
    } else {
      ExecSnoc(cfg, steps, WorkerStep(n - 1));
      more := WorkersLeave(cfg, steps + [WorkerStep(n - 1)], n - 1);
    }
  }

  /** As the code takes it, read by read: some schedule lets every worker return before any buffer is compressed, by
      reading `index_cthread == listsize` while both are still zero and `handleFile_finish` much later. */
  lemma EarlyExit(cfg: Config) returns (steps: seq<Step>)
    requires ConfigOk(cfg) && cfg.splitExit && cfg.workers > 0
    ensures AllReturned(Exec(cfg, steps)) && Exec(cfg, steps).results == map[]
  {
    steps := WorkersLookEarly(cfg, cfg.workers);
    steps := HandlerFinishes(cfg, steps);
    RunInv(cfg, steps);
    steps := WorkersLeave(cfg, steps, cfg.workers);
  }

  /** So with the exit test read by read, all buffers are compressed in every run whose workers have all returned
      exactly when there is no buffer at all: every file is empty. */
  lemma SplitExitExactly(cfg: Config)
    requires ConfigOk(cfg) && cfg.splitExit && cfg.workers > 0
    ensures (forall steps :: AllReturned(Exec(cfg, steps)) ==>
               forall k :: 0 <= k < |All(cfg)| ==> k in Exec(cfg, steps).results)
            <==> Flatten(cfg.files) == []
  {
    NoBuffersIffEmpty(cfg);
    if Flatten(cfg.files) != [] {
      var steps := EarlyExit(cfg);
      assert 0 !in Exec(cfg, steps).results;
    }
  }

  lemma NoBuffersIffEmpty(cfg: Config)
    requires ConfigOk(cfg)
    ensures |All(cfg)| == 0 <==> Flatten(cfg.files) == []
  {
    PagesTile(cfg.files, cfg.bufferSize, |cfg.files|);
    assert cfg.files[..|cfg.files|] == cfg.files;
    var pages := PageContents(cfg.files, All(cfg));
    if |pages| > 0 {
      var k := |pages| - 1;
      var i, j := PageLookup(cfg.files, cfg.bufferSize, |cfg.files|, k);
      assert pages[k] == Content(cfg.files, All(cfg)[k]) != [];
    }
  }

  // ---- which runs are right

  /** Whether each worker's last comparison of its exit test with `listsize` came after the handler had measured all
      files. */
  function LastLate(cfg: Config, steps: seq<Step>): (late: seq<bool>)
    requires ConfigOk(cfg)
    ensures |late| == cfg.workers
  {
    if steps == [] then seq(cfg.workers, _ => false)
    else
      var front, step := steps[..|steps| - 1], steps[|steps| - 1];
      LateAfter(Exec(cfg, front), step, LastLate(cfg, front))
  }

  function LateAfter(s: State, step: Step, late: seq<bool>): (after: seq<bool>)
    ensures |after| == |late|
  {
    if step.WorkerStep? && step.c < |s.workers| && step.c < |late| && s.workers[step.c].WExitSize?
    then late[step.c := !s.handler.HSize?] else late
  }

  /** A worker on its way out, or gone, on the strength of an early comparison. */
  predicate LeftEarly(s: State, late: seq<bool>, c: nat) {
    c < |s.workers| && c < |late| && (s.workers[c].WExitFinish? || s.workers[c].WDone?) && !late[c]
  }

  /** Leaving after a late comparison takes every buffer claimed; and as soon as one buffer is claimed, some worker has
      not left early, nor will. */
  ghost predicate ExitInv(cfg: Config, s: State, late: seq<bool>)
    requires ConfigOk(cfg)
  {
    && |late| == |s.workers|
    && (forall c :: 0 <= c < |s.workers| ==> Sure(cfg, s.index, s.finish, s.workers[c], late[c]))
    && (s.index > 0 ==> exists c: nat :: Stayed(s, late, c))
  }

  predicate Sure(cfg: Config, index: nat, finish: bool, w: Worker, late: bool)
    requires ConfigOk(cfg)
  {
    && (w.WExitSize? ==> w.seen <= index)
    && ((w.WExitFinish? || w.WDone?) && late ==> index == |All(cfg)|)
    && (w.WDone? ==> finish)
  }

  ghost predicate Stayed(s: State, late: seq<bool>, c: nat) {
    c < |s.workers| && !LeftEarly(s, late, c)
  }

  lemma StepExit(cfg: Config, s: State, step: Step, late: seq<bool>)
    requires cfg.splitExit && Inv(cfg, s) && ExitInv(cfg, s, late)
    ensures ExitInv(cfg, Next(cfg, s, step), LateAfter(s, step, late))
  {
    match step
    case HandlerStep =>
      HandlerAlone(cfg, s);
      if s.index > 0 {
        var c: nat :| Stayed(s, late, c);
        assert Stayed(Next(cfg, s, step), late, c);
      }
    case WorkerStep(c) =>
      if c < |s.workers| {
        WorkerExit(cfg, s, c, late);
        WorkerStays(cfg, s, c, late);
      }
  }

  lemma WorkerExit(cfg: Config, s: State, c: nat, late: seq<bool>)
    requires ConfigOk(cfg) && cfg.splitExit && c < |s.workers| && ExitInv(cfg, s, late)
    requires s.index <= s.count <= |All(cfg)| && (!s.handler.HSize? ==> s.listsize == |All(cfg)|)
    ensures var t, after := WorkerNext(cfg, s, c), LateAfter(s, WorkerStep(c), late);
      && |after| == |t.workers|
      && forall d :: 0 <= d < |t.workers| ==> Sure(cfg, t.index, t.finish, t.workers[d], after[d])
  {
    var t, after := WorkerNext(cfg, s, c), LateAfter(s, WorkerStep(c), late);
    forall d | 0 <= d < |t.workers| ensures Sure(cfg, t.index, t.finish, t.workers[d], after[d]) {
      assert Sure(cfg, s.index, s.finish, s.workers[d], late[d]);
      if d != c {
        assert t.workers[d] == s.workers[d] && after[d] == late[d];
      }
    }
  }

  lemma WorkerStays(cfg: Config, s: State, c: nat, late: seq<bool>)
    requires ConfigOk(cfg) && cfg.splitExit && c < |s.workers| && ExitInv(cfg, s, late)
    requires s.index <= s.count && (s.handler.HSize? ==> s.count == 0)
    ensures var t, after := WorkerNext(cfg, s, c), LateAfter(s, WorkerStep(c), late);
      t.index > 0 ==> exists d: nat :: Stayed(t, after, d)
  {
    var t, after := WorkerNext(cfg, s, c), LateAfter(s, WorkerStep(c), late);
    if t.index > s.index {
      assert Stayed(t, after, c);
    } else if s.index > 0 {
      var d: nat :| Stayed(s, late, d);
      assert !s.handler.HSize?;
      assert Stayed(t, after, d);
    }
  }

  lemma {:induction false} RunExit(cfg: Config, steps: seq<Step>)
    requires ConfigOk(cfg) && cfg.splitExit
    ensures ExitInv(cfg, Exec(cfg, steps), LastLate(cfg, steps))
  {
    if steps == [] {
    } else {
      RunExit(cfg, steps[..|steps| - 1]);
      RunInv(cfg, steps[..|steps| - 1]);
      StepExit(cfg, Exec(cfg, steps[..|steps| - 1]), steps[|steps| - 1], LastLate(cfg, steps[..|steps| - 1]));
    }
  }

  predicate SomeLate(late: seq<bool>) {
    exists c :: 0 <= c < |late| && late[c]
  }

  /** Every buffer is compressed. */
  ghost predicate Complete(cfg: Config, s: State)
    requires ConfigOk(cfg)
  {
    forall k :: 0 <= k < |All(cfg)| ==> k in s.results
  }

  /** For the exit test as the code takes it, exactly which runs are right: when all workers have returned, every buffer
      is compressed exactly if there is none, or some worker's last comparison came after all files were measured.  One
      such worker is enough, and comparisons before its last do not matter. */
  lemma CompleteExactly(cfg: Config, steps: seq<Step>)
    requires ConfigOk(cfg) && cfg.splitExit && AllReturned(Exec(cfg, steps))
    ensures Complete(cfg, Exec(cfg, steps))
            <==> Flatten(cfg.files) == [] || SomeLate(LastLate(cfg, steps))
  {
    NoBuffersIffEmpty(cfg);
    CompleteRun(cfg, steps);
  }

  lemma CompleteRun(cfg: Config, steps: seq<Step>)
    requires ConfigOk(cfg) && cfg.splitExit && AllReturned(Exec(cfg, steps))
    ensures Complete(cfg, Exec(cfg, steps)) <==> |All(cfg)| == 0 || SomeLate(LastLate(cfg, steps))
  {
    RunInv(cfg, steps);
    RunExit(cfg, steps);
    CompleteState(cfg, Exec(cfg, steps), LastLate(cfg, steps));
  }

  lemma CompleteState(cfg: Config, s: State, late: seq<bool>)
    requires ConfigOk(cfg) && AllReturned(s) && Inv(cfg, s) && ExitInv(cfg, s, late)
    ensures Complete(cfg, s) <==> |All(cfg)| == 0 || SomeLate(late)
  {
    if SomeLate(late) {
      var c :| 0 <= c < |late| && late[c];
      LeftLate(cfg, s, late, c);
    } else {
      AllLeftEarly(cfg, s, late);
      assert |All(cfg)| > 0 ==> 0 !in s.results;
    }
  }

  lemma LeftLate(cfg: Config, s: State, late: seq<bool>, c: nat)
    requires ConfigOk(cfg) && AllReturned(s) && Inv(cfg, s) && ExitInv(cfg, s, late) && c < |late| && late[c]
    ensures Complete(cfg, s)
  {
    assert s.workers[c].WDone?;
    assert Sure(cfg, s.index, s.finish, s.workers[c], late[c]);
    AllFilled(cfg, s);
  }

  lemma AllLeftEarly(cfg: Config, s: State, late: seq<bool>)
    requires ConfigOk(cfg) && AllReturned(s) && Inv(cfg, s) && ExitInv(cfg, s, late)
    requires forall c :: 0 <= c < |late| ==> !late[c]
    ensures forall k :: k !in s.results
  {
    forall c: nat ensures !Stayed(s, late, c) {
      assert c < |s.workers| ==> s.workers[c].WDone?;
    }
    assert s.index == 0;
  }

  /** And then the file is right. */
  lemma CompleteCompresses(cfg: Config, steps: seq<Step>)
    requires ConfigOk(cfg) && cfg.splitExit && AllReturned(Exec(cfg, steps))
    requires Complete(cfg, Exec(cfg, steps))
    ensures Compressed(cfg, Exec(cfg, steps))
  {
    var s := Exec(cfg, steps);
    RunInv(cfg, steps);
    RunExit(cfg, steps);
    assert s.workers[0].WDone?;
    if |All(cfg)| > 0 {
      assert |All(cfg)| - 1 in s.results;
    }
    AllFilled(cfg, s);
    FilledCompresses(cfg, s);
  }

  // ---- every input has a run that returns

  /** Worker `c` after its exit test, when the handler has finished: nothing else has changed. */
  ghost predicate Tested(cfg: Config, steps: seq<Step>, more: seq<Step>, c: nat)
    requires ConfigOk(cfg)
  {
    var s, t := Exec(cfg, steps), Exec(cfg, more);
    c < |s.workers| && t == s.(workers := s.workers[c := if s.index == s.listsize then WDone else WTop])
    && LateTests(cfg, more)
  }

  lemma WorkerTests(cfg: Config, steps: seq<Step>, c: nat) returns (more: seq<Step>)
    requires ConfigOk(cfg) && LateTests(cfg, steps) && c < |Exec(cfg, steps).workers|
    requires Exec(cfg, steps).workers[c].WExit? && Exec(cfg, steps).handler.HDone? && Exec(cfg, steps).finish
    ensures Tested(cfg, steps, more, c)
  {
    more := OneStep(cfg, steps, c);
    if cfg.splitExit {
      more := OneStep(cfg, more, c);
      if Exec(cfg, steps).index == Exec(cfg, steps).listsize {
        more := OneStep(cfg, more, c);
      }
    }
  }

  lemma OneStep(cfg: Config, steps: seq<Step>, c: nat) returns (more: seq<Step>)
    requires ConfigOk(cfg) && LateTests(cfg, steps) && c < |Exec(cfg, steps).workers|
    requires !Exec(cfg, steps).handler.HSize?
    ensures Exec(cfg, more) == WorkerNext(cfg, Exec(cfg, steps), c) && LateTests(cfg, more)
  {
    more := steps + [WorkerStep(c)];
    assert more[..|steps|] == steps;
  }

  /** With the handler done, a worker at the top of its loop compresses what is left and returns. */
  lemma {:induction false} WorkerReturns(cfg: Config, steps: seq<Step>, c: nat) returns (more: seq<Step>)
    requires ConfigOk(cfg) && LateTests(cfg, steps) && c < |Exec(cfg, steps).workers|
    requires Exec(cfg, steps).workers[c].WTop? && Exec(cfg, steps).handler.HDone?
    ensures LateTests(cfg, more) && Exec(cfg, more).handler.HDone?
    ensures Exec(cfg, more).workers == Exec(cfg, steps).workers[c := WDone]
    decreases |All(cfg)| - Exec(cfg, steps).index
  {
    RunInv(cfg, steps);
    var s := Exec(cfg, steps);
    more := OneStep(cfg, steps, c);
    if s.index < s.count {
      more := OneStep(cfg, more, c);
    }
    more := WorkerTests(cfg, more, c);
    if Exec(cfg, more).index == |All(cfg)| {
    } else {
      more := WorkerReturns(cfg, more, c);
    }
  }

  lemma {:induction false} WorkersReturn(cfg: Config, steps: seq<Step>, n: nat) returns (more: seq<Step>)
    requires ConfigOk(cfg) && LateTests(cfg, steps) && n <= cfg.workers == |Exec(cfg, steps).workers|
    requires Exec(cfg, steps).handler.HDone?
    requires forall c :: 0 <= c < cfg.workers ==> Exec(cfg, steps).workers[c] == if c < n then WDone else WTop
    ensures LateTests(cfg, more) && |Exec(cfg, more).workers| == cfg.workers
    ensures forall c :: 0 <= c < cfg.workers ==> Exec(cfg, more).workers[c].WDone?
    decreases cfg.workers - n
  {
    if n == cfg.workers {
      more := steps;
    } else {
      more := WorkerReturns(cfg, steps, n);
      more := WorkersReturn(cfg, more, n + 1);
    }
  }

  /** On every input, with either exit test, some run without an early test ends with all workers returned. */
  lemma CanReturn(cfg: Config) returns (steps: seq<Step>)
    requires ConfigOk(cfg) && cfg.workers > 0
    ensures LateTests(cfg, steps) && AllReturned(Exec(cfg, steps))
  {
    steps := HandlerFinishes(cfg, []);
    steps := WorkersReturn(cfg, steps, 0);
  }
}
