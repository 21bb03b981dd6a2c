/** The invariant of the pzip3 step machine, and what it says about every run. */
module Pzip3Invariant {
  import opened Rle
  import opened Pzip3Pages
  import opened Pzip3Work
  import opened Pzip3Protocol

  /** How many pages the producer has put so far. */
  function Enqueued(cfg: Config, p: Producer): nat
    requires ConfigOk(cfg) && (p.PFile? ==> p.i <= |cfg.files|) && (InsideFile(p) ==> p.i < |cfg.files|)
  {
    match p
    case PFile(i) => FirstPage(cfg.files, cfg.pageSize, i)
    case PSignal(i, j) => FirstPage(cfg.files, cfg.pageSize, i) + j + 1
    case PFinish => TotalPages(cfg.files, cfg.pageSize)
    case PBroadcast => TotalPages(cfg.files, cfg.pageSize)
    case PDone => TotalPages(cfg.files, cfg.pageSize)
    case _ => FirstPage(cfg.files, cfg.pageSize, p.i) + p.j
  }

  /** How many files the producer has measured so far. */
  function Measured(cfg: Config, p: Producer): nat {
    if p.PFile? then p.i else if InsideFile(p) then p.i + 1 else |cfg.files|
  }

  /** The final entry of `pages_per_file` for file `k`: empty files never get one. */
  function Entry(cfg: Config, k: nat): int
    requires ConfigOk(cfg) && k < |cfg.files|
  {
    if |cfg.files[k]| == 0 then cfg.garbage[k] else Pages(cfg, k)
  }

  function Dequeued(cfg: Config, s: State): int
    requires ConfigOk(cfg) && Shape(cfg, s)
  {
    Enqueued(cfg, s.prod) - s.ring.size
  }

  function All(cfg: Config): seq<Page>
    requires ConfigOk(cfg)
  {
    AllPages(cfg.files, cfg.pageSize)
  }

  /** Where a page stands among all pages. */
  function Index(cfg: Config, p: Page): nat
    requires ConfigOk(cfg)
  {
    if p.file <= |cfg.files| then FirstPage(cfg.files, cfg.pageSize, p.file) + p.number else 0
  }

  /** The slot `calculateOutputPosition` computes for a page once all earlier files are measured. */
  function SumEntries(cfg: Config, k: nat): int
    requires ConfigOk(cfg) && k <= |cfg.files|
  {
    if k == 0 then 0 else SumEntries(cfg, k - 1) + Entry(cfg, k - 1)
  }

  function Slot(cfg: Config, p: Page): int
    requires ConfigOk(cfg)
  {
    if p.file <= |cfg.files| then SumEntries(cfg, p.file) + p.number else 0
  }

  predicate Holding(c: Consumer) {
    c.CTest? || c.CBeforeWait? || c.CDecide? || c.CTook?
  }

  predicate HasPage(c: Consumer) {
    c.CTook? || c.CWork?
  }

  // ---- the invariant, part by part

  /** The queue holds exactly the pages between those dequeued and those enqueued, in order. */
  ghost predicate QueueInv(cfg: Config, s: State)
    requires ConfigOk(cfg) && Shape(cfg, s)
  {
    && RingValid(s.ring)
    && 0 <= Dequeued(cfg, s) <= Enqueued(cfg, s.prod) <= TotalPages(cfg.files, cfg.pageSize)
    && Queued(s.ring) == All(cfg)[Dequeued(cfg, s)..Enqueued(cfg, s.prod)]
  }

  ghost predicate ProducerInv(cfg: Config, s: State)
    requires ConfigOk(cfg) && Shape(cfg, s)
  {
    && (InsideFile(s.prod) ==>
          |cfg.files[s.prod.i]| > 0 && s.prod.j <= Pages(cfg, s.prod.i)
          && (!s.prod.PPage? ==> s.prod.j < Pages(cfg, s.prod.i)))
    && s.totalPages == FirstPage(cfg.files, cfg.pageSize, Measured(cfg, s.prod))
    && (forall k :: 0 <= k < |cfg.files| ==>
          s.pagesPerFile[k] == if k < Measured(cfg, s.prod) then Entry(cfg, k) else cfg.garbage[k])
    && (s.isComplete <==> s.prod.PBroadcast? || s.prod.PDone?)
    && (s.prod.PPut? ==> s.ring.size < Q_CAPACITY)
  }

  ghost predicate LockInv(s: State) {
    && (s.lock.ByProducer? <==> s.prod.PTest?)
    && (s.lock.ByConsumer? ==> s.lock.c < |s.cons|)
    && (forall c :: 0 <= c < |s.cons| ==> (Holding(s.cons[c]) <==> s.lock == ByConsumer(c)))
  }

  ghost predicate ConsumerInv(s: State) {
    && (forall c :: 0 <= c < |s.cons| && s.cons[c].CDecide? ==> s.ring.size > 0 || s.isComplete)
    && (forall c :: 0 <= c < |s.cons| && s.cons[c].CBeforeWait? ==> s.ring.size == 0)
    && (forall c :: 0 <= c < |s.cons| && s.cons[c].CLoopSize? ==> s.isComplete)
    && (forall c :: 0 <= c < |s.cons| && s.cons[c].CDone? ==> s.isComplete && s.ring.size == 0)
  }

  /** The producer sleeps only while the queue is full, or while the consumer that made room has yet to signal; and
      then no consumer sleeps. */
  ghost predicate SleepInv(s: State) {
    s.prod.PAsleep? ==>
      && (forall c :: 0 <= c < |s.cons| ==> !s.cons[c].CAsleep?)
      && (|| s.ring.size == Q_CAPACITY
          || (s.ring.size == Q_CAPACITY - 1 && s.lock.ByConsumer? && s.lock.c < |s.cons| && s.cons[s.lock.c].CTook?))
  }

  ghost predicate Owns(cfg: Config, s: State, c: nat, x: nat)
    requires ConfigOk(cfg)
  {
    c < |s.cons| && HasPage(s.cons[c]) && Index(cfg, s.cons[c].page) == x
  }

  /** A page in a consumer's hands was dequeued, and no other consumer has it. */
  ghost predicate HandsInv(cfg: Config, s: State)
    requires ConfigOk(cfg) && Shape(cfg, s)
  {
    && (forall c :: 0 <= c < |s.cons| && HasPage(s.cons[c]) ==>
          var x := Index(cfg, s.cons[c].page);
          x < Dequeued(cfg, s) && x < |All(cfg)| && All(cfg)[x] == s.cons[c].page
          && s.cons[c].page.file < Measured(cfg, s.prod))
    && (forall c, d :: 0 <= c < d < |s.cons| && HasPage(s.cons[c]) && HasPage(s.cons[d]) ==>
          Index(cfg, s.cons[c].page) != Index(cfg, s.cons[d].page))
  }

  /** Every filled slot holds the compressed form of a dequeued page that belongs there. */
  ghost predicate OutSound(cfg: Config, s: State)
    requires ConfigOk(cfg) && Shape(cfg, s)
  {
    forall k :: k in s.out ==> exists x :: 0 <= x < |All(cfg)| && x < Dequeued(cfg, s) && Fills(cfg, x, k, s.out[k])
  }

  ghost predicate Fills(cfg: Config, x: nat, k: int, rs: seq<Run>)
    requires ConfigOk(cfg) && x < |All(cfg)|
  {
    Slot(cfg, All(cfg)[x]) == k && rs == Encode(Content(cfg.files, All(cfg)[x]))
  }

  /** Every dequeued page has been written or is in some consumer's hands. */
  ghost predicate OutComplete(cfg: Config, s: State)
    requires ConfigOk(cfg) && Shape(cfg, s)
  {
    forall x :: 0 <= x < |All(cfg)| && x < Dequeued(cfg, s) ==> Accounted(cfg, s, x)
  }

  ghost predicate Accounted(cfg: Config, s: State, x: nat)
    requires ConfigOk(cfg) && x < |All(cfg)|
  {
    Slot(cfg, All(cfg)[x]) in s.out || exists c :: Owns(cfg, s, c, x)
  }

  /** `calculateOutputPosition` numbers the pages 0, 1, 2, ... */
  ghost predicate Numbered(cfg: Config)
    requires ConfigOk(cfg)
  {
    forall x :: 0 <= x < |All(cfg)| ==> Slot(cfg, All(cfg)[x]) == x
  }

  /** Then a page in a consumer's hands has a slot nobody has written. */
  ghost predicate FreshInv(cfg: Config, s: State)
    requires ConfigOk(cfg) && Shape(cfg, s)
  {
    Numbered(cfg) ==>
      forall c :: 0 <= c < |s.cons| && HasPage(s.cons[c]) ==> Slot(cfg, s.cons[c].page) !in s.out
  }

  ghost predicate Inv(cfg: Config, s: State) {
    && ConfigOk(cfg) && Shape(cfg, s)
    && QueueInv(cfg, s) && ProducerInv(cfg, s) && LockInv(s) && ConsumerInv(s) && SleepInv(s)
    && HandsInv(cfg, s) && OutSound(cfg, s) && OutComplete(cfg, s) && FreshInv(cfg, s)
  }

  lemma InitInv(cfg: Config)
    requires ConfigOk(cfg)
    ensures Inv(cfg, Init(cfg))
  {
  }

  // ---- what no step may disturb

  /** A step that leaves the queue and the output alone, and moves no page between hands. */
  ghost predicate SameData(cfg: Config, s: State, s': State)
    requires ConfigOk(cfg) && Shape(cfg, s) && Shape(cfg, s')
  {
    && s'.out == s.out && s'.ring.size - s.ring.size == Enqueued(cfg, s'.prod) - Enqueued(cfg, s.prod)
    && Measured(cfg, s'.prod) >= Measured(cfg, s.prod)
    && forall c :: 0 <= c < |s.cons| ==>
         (HasPage(s.cons[c]) <==> HasPage(s'.cons[c]))
         && (HasPage(s.cons[c]) ==> s'.cons[c].page == s.cons[c].page)
  }

  lemma DataKept(cfg: Config, s: State, s': State)
    requires ConfigOk(cfg) && Shape(cfg, s) && Shape(cfg, s') && SameData(cfg, s, s')
    requires HandsInv(cfg, s) && OutSound(cfg, s) && OutComplete(cfg, s) && FreshInv(cfg, s)
    ensures HandsInv(cfg, s') && OutSound(cfg, s') && OutComplete(cfg, s') && FreshInv(cfg, s')
  {
    forall x | 0 <= x < |All(cfg)| && x < Dequeued(cfg, s') ensures Accounted(cfg, s', x) {
      assert Accounted(cfg, s, x);
      if Slot(cfg, All(cfg)[x]) !in s.out {
        var c :| Owns(cfg, s, c, x);
        assert Owns(cfg, s', c, x);
      }
    }
  }

  lemma PutSlice(all: seq<Page>, r: Ring, d: nat, e: nat)
    requires RingValid(r) && r.size < Q_CAPACITY && d <= e < |all| && Queued(r) == all[d..e]
    ensures RingValid(RingPut(r, all[e])) && Queued(RingPut(r, all[e])) == all[d..e + 1]
  {
    PutShape(r, all[e]);
    PutAppends(r, all[e]);
    assert all[d..e] + [all[e]] == all[d..e + 1];
  }

  lemma GetSlice(all: seq<Page>, r: Ring, d: nat, e: nat)
    requires RingValid(r) && r.size > 0 && d <= e <= |all| && Queued(r) == all[d..e]
    ensures d < e && r.buf[r.tail] == all[d]
    ensures RingValid(RingGet(r)) && Queued(RingGet(r)) == all[d + 1..e]
  {
    GetShape(r);
    GetTakesOldest(r);
    assert all[d..e][0] == all[d];
    assert all[d..e][1..] == all[d + 1..e];
    assert ([r.buf[r.tail]] + Queued(RingGet(r)))[1..] == Queued(RingGet(r));
  }

  // ---- steps of the producer

  lemma ProducerStepInv(cfg: Config, s: State, wakes: set<nat>)
    requires Inv(cfg, s) && Enabled(cfg, s, ProducerStep(wakes))
    ensures Inv(cfg, ProducerNext(cfg, s, wakes))
  {
    ProducerQueue(cfg, s, wakes);
    ProducerLocal(cfg, s, wakes);
    ProducerControl(cfg, s, wakes);
    DataKept(cfg, s, ProducerNext(cfg, s, wakes));
  }

  lemma ProducerLocal(cfg: Config, s: State, wakes: set<nat>)
    requires ConfigOk(cfg) && Shape(cfg, s) && ProducerInv(cfg, s) && Enabled(cfg, s, ProducerStep(wakes))
    requires RingValid(s.ring)
    ensures ProducerInv(cfg, ProducerNext(cfg, s, wakes))
  {
    if s.prod.PFile? && s.prod.i < |cfg.files| {
      PageArithmetic(|cfg.files[s.prod.i]|, cfg.pageSize);
    }
  }

  lemma ProducerControl(cfg: Config, s: State, wakes: set<nat>)
    requires ConfigOk(cfg) && Shape(cfg, s) && ProducerInv(cfg, s) && Enabled(cfg, s, ProducerStep(wakes))
    requires RingValid(s.ring) && LockInv(s) && ConsumerInv(s) && SleepInv(s)
    ensures var s' := ProducerNext(cfg, s, wakes); LockInv(s') && ConsumerInv(s') && SleepInv(s')
  {
  }

  lemma ProducerQueue(cfg: Config, s: State, wakes: set<nat>)
    requires ConfigOk(cfg) && Shape(cfg, s) && ProducerInv(cfg, s) && QueueInv(cfg, s)
    requires Enabled(cfg, s, ProducerStep(wakes))
    ensures QueueInv(cfg, ProducerNext(cfg, s, wakes)) && SameData(cfg, s, ProducerNext(cfg, s, wakes))
  {
    if s.prod.PPut? {
      PutInv(cfg, s);
    } else {
      ProducerCounts(cfg, s, wakes);
      QueueSame(cfg, s, ProducerNext(cfg, s, wakes));
    }
    ProducerHands(cfg, s, wakes);
  }

  lemma PutInv(cfg: Config, s: State)
    requires ConfigOk(cfg) && Shape(cfg, s) && ProducerInv(cfg, s) && QueueInv(cfg, s) && s.prod.PPut?
    ensures var s' := ProducerNext(cfg, s, {});
      && QueueInv(cfg, s')
      && s'.ring.size == s.ring.size + 1 && Enqueued(cfg, s'.prod) == Enqueued(cfg, s.prod) + 1
  {
    var i, j := s.prod.i, s.prod.j;
    var e := Enqueued(cfg, s.prod);
    NextPageIs(cfg, i, j);
    PutSlice(All(cfg), s.ring, Dequeued(cfg, s), e);
    var s' := ProducerNext(cfg, s, {});
    assert s'.ring == RingPut(s.ring, All(cfg)[e]) && Enqueued(cfg, s'.prod) == e + 1;
  }

  lemma NextPageIs(cfg: Config, i: nat, j: nat)
    requires ConfigOk(cfg) && i < |cfg.files| && j < Pages(cfg, i)
    ensures FirstPage(cfg.files, cfg.pageSize, i) + j < |All(cfg)|
    ensures All(cfg)[FirstPage(cfg.files, cfg.pageSize, i) + j] == PageOf(|cfg.files[i]|, i, j, cfg.pageSize)
  {
    PageAt(cfg.files, cfg.pageSize, |cfg.files|, i, j);
  }

  lemma QueueSame(cfg: Config, s: State, s': State)
    requires ConfigOk(cfg) && Shape(cfg, s) && Shape(cfg, s') && QueueInv(cfg, s)
    requires s'.ring == s.ring && Enqueued(cfg, s'.prod) == Enqueued(cfg, s.prod)
    ensures QueueInv(cfg, s')
  {
  }

  lemma ProducerHands(cfg: Config, s: State, wakes: set<nat>)
    requires ConfigOk(cfg) && Shape(cfg, s)
    ensures var s' := ProducerNext(cfg, s, wakes);
      && s'.out == s.out && Measured(cfg, s'.prod) >= Measured(cfg, s.prod)
      && |s'.cons| == |s.cons|
      && forall c :: 0 <= c < |s.cons| ==>
           s'.cons[c] == s.cons[c] || (!HasPage(s'.cons[c]) && !HasPage(s.cons[c]))
  {
  }

  lemma ProducerCounts(cfg: Config, s: State, wakes: set<nat>)
    requires ConfigOk(cfg) && Shape(cfg, s) && ProducerInv(cfg, s) && !s.prod.PPut?
    requires Enabled(cfg, s, ProducerStep(wakes))
    ensures var s' := ProducerNext(cfg, s, wakes);
      && Enqueued(cfg, s'.prod) == Enqueued(cfg, s.prod)
      && Measured(cfg, s'.prod) >= Measured(cfg, s.prod)
      && s'.ring == s.ring
  {
    if s.prod.PFile? && s.prod.i < |cfg.files| {
      PageArithmetic(|cfg.files[s.prod.i]|, cfg.pageSize);
    }
  }

  // ---- steps of a consumer

  lemma ConsumerStepInv(cfg: Config, s: State, c: nat)
    requires Inv(cfg, s) && Enabled(cfg, s, ConsumerStep(c))
    ensures Inv(cfg, ConsumerNext(cfg, s, c))
  {
    ConsumerControl(cfg, s, c);
    ConsumerKeepsData(cfg, s, c);
  }

  lemma ConsumerControl(cfg: Config, s: State, c: nat)
    requires ConfigOk(cfg) && Shape(cfg, s) && Enabled(cfg, s, ConsumerStep(c)) && RingValid(s.ring)
    requires ProducerInv(cfg, s) && LockInv(s) && ConsumerInv(s) && SleepInv(s)
    ensures var s' := ConsumerNext(cfg, s, c);
      Shape(cfg, s') && ProducerInv(cfg, s') && LockInv(s') && ConsumerInv(s') && SleepInv(s')
  {
    ConsumerLocks(cfg, s, c);
    ConsumerSleep(cfg, s, c);
    ConsumerProducer(cfg, s, c);
  }

  lemma ConsumerKeepsData(cfg: Config, s: State, c: nat)
    requires Inv(cfg, s) && Enabled(cfg, s, ConsumerStep(c)) && Shape(cfg, ConsumerNext(cfg, s, c))
    ensures var s' := ConsumerNext(cfg, s, c);
      QueueInv(cfg, s') && HandsInv(cfg, s') && OutSound(cfg, s') && OutComplete(cfg, s') && FreshInv(cfg, s')
  {
    if s.cons[c].CDecide? && !(s.isComplete && s.ring.size == 0) {
      TakeInv(cfg, s, c);
    } else if s.cons[c].CWork? {
      WorkInv(cfg, s, c);
    } else {
      ConsumerData(cfg, s, c);
      DataKept(cfg, s, ConsumerNext(cfg, s, c));
    }
  }

  lemma ConsumerData(cfg: Config, s: State, c: nat)
    requires ConfigOk(cfg) && Shape(cfg, s) && Enabled(cfg, s, ConsumerStep(c)) && QueueInv(cfg, s)
    requires !s.cons[c].CWork? && (s.cons[c].CDecide? ==> s.isComplete && s.ring.size == 0)
    ensures SameData(cfg, s, ConsumerNext(cfg, s, c)) && QueueInv(cfg, ConsumerNext(cfg, s, c))
  {
    ConsumerMoves(cfg, s, c);
    ConsumerLeaves(cfg, s, c);
  }

  lemma ConsumerLeaves(cfg: Config, s: State, c: nat)
    requires ConfigOk(cfg) && Shape(cfg, s) && Enabled(cfg, s, ConsumerStep(c))
    requires !s.cons[c].CWork? && (s.cons[c].CDecide? ==> s.isComplete && s.ring.size == 0)
    ensures var s' := ConsumerNext(cfg, s, c);
      && s'.ring == s.ring && s'.out == s.out
      && (HasPage(s.cons[c]) <==> HasPage(s'.cons[c]))
      && (HasPage(s.cons[c]) ==> s'.cons[c].page == s.cons[c].page)
  {
  }

  lemma ConsumerLocks(cfg: Config, s: State, c: nat)
    requires ConfigOk(cfg) && Shape(cfg, s) && Enabled(cfg, s, ConsumerStep(c))
    requires s.ring.size >= 0 && LockInv(s) && ConsumerInv(s)
    ensures LockInv(ConsumerNext(cfg, s, c)) && ConsumerInv(ConsumerNext(cfg, s, c))
  {
    ConsumerMoves(cfg, s, c);
  }

  /** Only the stepping consumer's place in the code changes. */
  lemma ConsumerMoves(cfg: Config, s: State, c: nat)
    requires ConfigOk(cfg) && Shape(cfg, s) && Enabled(cfg, s, ConsumerStep(c))
    ensures var s' := ConsumerNext(cfg, s, c);
      && |s'.cons| == |s.cons| && s'.isComplete == s.isComplete
      && (forall d :: 0 <= d < |s.cons| && d != c ==> s'.cons[d] == s.cons[d])
      && (s'.prod == s.prod || s'.prod == WakeProducer(s.prod))
      && s'.pagesPerFile == s.pagesPerFile && s'.totalPages == s.totalPages
  {
  }

  lemma ConsumerSleep(cfg: Config, s: State, c: nat)
    requires ConfigOk(cfg) && Shape(cfg, s) && Enabled(cfg, s, ConsumerStep(c))
    requires RingValid(s.ring) && ProducerInv(cfg, s) && LockInv(s) && ConsumerInv(s) && SleepInv(s)
    ensures SleepInv(ConsumerNext(cfg, s, c))
  {
    ConsumerMoves(cfg, s, c);
  }

  lemma ConsumerProducer(cfg: Config, s: State, c: nat)
    requires ConfigOk(cfg) && Shape(cfg, s) && Enabled(cfg, s, ConsumerStep(c))
    requires ProducerInv(cfg, s) && LockInv(s) && ConsumerInv(s)
    ensures var s' := ConsumerNext(cfg, s, c);
      && ProducerInv(cfg, s')
      && Enqueued(cfg, s'.prod) == Enqueued(cfg, s.prod) && Measured(cfg, s'.prod) == Measured(cfg, s.prod)
  {
    ConsumerMoves(cfg, s, c);
    assert ConsumerNext(cfg, s, c).ring.size <= s.ring.size;
  }

  /** A page among the first `Enqueued` ones belongs to a measured file, and stands at its own index. */
  lemma PageFacts(cfg: Config, p: Producer, x: nat)
    requires ConfigOk(cfg) && (p.PFile? ==> p.i <= |cfg.files|) && (InsideFile(p) ==> p.i < |cfg.files|)
    requires InsideFile(p) ==> p.j < Pages(cfg, p.i) || (p.PPage? && p.j == Pages(cfg, p.i))
    requires x < Enqueued(cfg, p) && x < |All(cfg)|
    ensures All(cfg)[x].file < Measured(cfg, p) && All(cfg)[x].file < |cfg.files|
    ensures Index(cfg, All(cfg)[x]) == x
  {
    var i, j := PageLookup(cfg.files, cfg.pageSize, |cfg.files|, x);
    if i >= Measured(cfg, p) {
      FirstPageMonotone(cfg.files, cfg.pageSize, Measured(cfg, p), i);
      assert false;
    }
  }

  lemma {:induction false} SumsAgree(cfg: Config, pagesPerFile: seq<int>, k: nat)
    requires ConfigOk(cfg) && |pagesPerFile| == |cfg.files| && k <= |cfg.files|
    requires forall i :: 0 <= i < k ==> pagesPerFile[i] == Entry(cfg, i)
    ensures SumFirst(pagesPerFile, k) == SumEntries(cfg, k)
  {
    if k == 0 {
    } else {
      SumsAgree(cfg, pagesPerFile, k - 1);
    }
  }

  lemma NumberedAt(cfg: Config, x: nat)
    requires ConfigOk(cfg) && Numbered(cfg) && x < |All(cfg)|
    ensures Slot(cfg, All(cfg)[x]) == x
  {
  }

  /** Taking a page out of the queue. */
  lemma TakeInv(cfg: Config, s: State, c: nat)
    requires Inv(cfg, s) && c < |s.cons| && s.cons[c].CDecide? && !(s.isComplete && s.ring.size == 0)
    ensures var s' := ConsumerNext(cfg, s, c);
      QueueInv(cfg, s') && HandsInv(cfg, s') && OutSound(cfg, s') && OutComplete(cfg, s') && FreshInv(cfg, s')
  {
    var s' := ConsumerNext(cfg, s, c);
    var d, e := Dequeued(cfg, s), Enqueued(cfg, s.prod);
    GetSlice(All(cfg), s.ring, d, e);
    PageFacts(cfg, s.prod, d);
    TakeData(cfg, s, s', c);
  }

  lemma TakeData(cfg: Config, s: State, s': State, c: nat)
    requires ConfigOk(cfg) && Shape(cfg, s) && Shape(cfg, s')
    requires HandsInv(cfg, s) && OutSound(cfg, s) && OutComplete(cfg, s) && FreshInv(cfg, s)
    requires s'.out == s.out && s'.prod == s.prod && Dequeued(cfg, s') == Dequeued(cfg, s) + 1
    requires 0 <= Dequeued(cfg, s) < |All(cfg)| && c < |s.cons| && !HasPage(s.cons[c])
    requires s'.cons == s.cons[c := CTook(All(cfg)[Dequeued(cfg, s)])]
    requires Index(cfg, All(cfg)[Dequeued(cfg, s)]) == Dequeued(cfg, s)
    requires All(cfg)[Dequeued(cfg, s)].file < Measured(cfg, s.prod)
    ensures HandsInv(cfg, s') && OutSound(cfg, s') && OutComplete(cfg, s') && FreshInv(cfg, s')
  {
    var d := Dequeued(cfg, s);
    assert Owns(cfg, s', c, d);
    forall x | 0 <= x < |All(cfg)| && x < Dequeued(cfg, s') ensures Accounted(cfg, s', x) {
      if x < d {
        assert Accounted(cfg, s, x);
        if Slot(cfg, All(cfg)[x]) !in s.out {
          var b :| Owns(cfg, s, b, x);
          assert Owns(cfg, s', b, x);
        }
      }
    }
    if Numbered(cfg) {
      NumberedAt(cfg, d);
    }
  }

  /** Writing a page's output. */
  lemma WorkInv(cfg: Config, s: State, c: nat)
    requires Inv(cfg, s) && c < |s.cons| && s.cons[c].CWork?
    ensures var s' := ConsumerNext(cfg, s, c);
      QueueInv(cfg, s') && HandsInv(cfg, s') && OutSound(cfg, s') && OutComplete(cfg, s') && FreshInv(cfg, s')
  {
    var page := s.cons[c].page;
    SumsAgree(cfg, s.pagesPerFile, page.file);
    WorkData(cfg, s, ConsumerNext(cfg, s, c), c);
  }

  lemma WorkData(cfg: Config, s: State, s': State, c: nat)
    requires ConfigOk(cfg) && Shape(cfg, s) && Shape(cfg, s')
    requires HandsInv(cfg, s) && OutSound(cfg, s) && OutComplete(cfg, s) && FreshInv(cfg, s)
    requires c < |s.cons| && s.cons[c].CWork? && s'.cons == s.cons[c := CLoop]
    requires s'.prod == s.prod && Dequeued(cfg, s') == Dequeued(cfg, s)
    requires s'.out == s.out[Slot(cfg, s.cons[c].page) := Encode(Content(cfg.files, s.cons[c].page))]
    ensures HandsInv(cfg, s') && OutSound(cfg, s') && OutComplete(cfg, s') && FreshInv(cfg, s')
  {
    var page := s.cons[c].page;
    var k, mine := Slot(cfg, page), Index(cfg, page);
    assert Fills(cfg, mine, k, s'.out[k]);
    forall x | 0 <= x < |All(cfg)| && x < Dequeued(cfg, s') ensures Accounted(cfg, s', x) {
      assert Accounted(cfg, s, x);
      if x != mine && Slot(cfg, All(cfg)[x]) !in s.out {
        var b :| Owns(cfg, s, b, x);
        assert Owns(cfg, s', b, x);
      }
    }
    if Numbered(cfg) {
      NumberedAt(cfg, mine);
      forall b | 0 <= b < |s.cons| && HasPage(s'.cons[b]) ensures Slot(cfg, s'.cons[b].page) !in s'.out {
        NumberedAt(cfg, Index(cfg, s.cons[b].page));
      }
    }
  }

  // ---- every run

  lemma SpuriousProducerInv(cfg: Config, s: State)
    requires Inv(cfg, s) && s.prod.PAsleep?
    ensures Inv(cfg, s.(prod := WakeProducer(s.prod)))
  {
    var s' := s.(prod := WakeProducer(s.prod));
    QueueSame(cfg, s, s');
    DataKept(cfg, s, s');
  }

  lemma SpuriousConsumerInv(cfg: Config, s: State, c: nat)
    requires Inv(cfg, s) && c < |s.cons| && s.cons[c].CAsleep?
    ensures Inv(cfg, s.(cons := s.cons[c := CWoken]))
  {
    var s' := s.(cons := s.cons[c := CWoken]);
    QueueSame(cfg, s, s');
    DataKept(cfg, s, s');
  }

  /** The invariant, in every state of every run. */
  lemma {:induction false} RunInv(cfg: Config, steps: seq<Step>)
    requires ConfigOk(cfg)
    ensures Inv(cfg, Exec(cfg, steps))
  {
    if steps == [] {
      InitInv(cfg);
    } else {
      var s, step := Exec(cfg, steps[..|steps| - 1]), steps[|steps| - 1];
      RunInv(cfg, steps[..|steps| - 1]);
      if Enabled(cfg, s, step) {
        match step
        case ProducerStep(wakes) => ProducerStepInv(cfg, s, wakes);
        case ConsumerStep(c) => ConsumerStepInv(cfg, s, c);
        case SpuriousProducer => SpuriousProducerInv(cfg, s);
        case SpuriousConsumer(c) => SpuriousConsumerInv(cfg, s, c);
      }
    }
  }
}
