/** concurrency-pzip/wzip/pzip3.c: one producer and any number of consumers as a step machine.

    A step is the code between two points where another thread can act: each critical section that touches only
    lock-protected data, each unlocked access to shared data.  The lock is explicit because `isComplete` is written,
    and tested at the bottom of the consumer loop, without it.  A run is any list of steps; a step whose thread cannot
    move does nothing, so the states `Exec` reaches are exactly the reachable ones. */
module Pzip3Protocol {
  import opened Rle
  import opened Pzip3Pages
  import opened Pzip3Work

  /** `garbage` is what `malloc` left in `pages_per_file`. */
  datatype Config = Config(files: seq<seq<byte>>, pageSize: nat, consumers: nat, garbage: seq<int>)

  ghost predicate ConfigOk(cfg: Config) {
    cfg.pageSize > 0 && |cfg.garbage| == |cfg.files|
  }

  datatype Holder = Free | ByProducer | ByConsumer(c: nat)

  /** Where the producer is; `i` is the file, `j` the page. */
  datatype Producer =
    | PFile(i: nat)             // line 104, about to look at file i
    | PPage(i: nat, j: nat)     // line 165, before the lock
    | PTest(i: nat, j: nat)     // line 167, holding the lock
    | PAsleep(i: nat, j: nat)   // line 169, in pthread_cond_wait on `empty`
    | PWoken(i: nat, j: nat)    // line 169, waiting for the lock again
    | PPut(i: nat, j: nat)      // line 184, after the unlocked gap
    | PSignal(i: nat, j: nat)   // line 187
    | PFinish                   // line 193
    | PBroadcast                // line 195
    | PDone

  datatype Consumer =
    | CTop                      // line 255, before the lock
    | CTest                     // line 256, holding the lock
    | CBeforeWait               // line 258, test passed, still holding the lock
    | CAsleep                   // line 258, in pthread_cond_wait on `fill`
    | CWoken                    // line 258, waiting for the lock again
    | CDecide                   // line 260, holding the lock
    | CTook(page: Page)         // line 265, holding the lock
    | CWork(page: Page)         // line 270, lock released
    | CLoop                     // line 272, about to read isComplete
    | CLoopSize                 // line 272, about to read q_size
    | CDone

  datatype State = State(
    ring: Ring, isComplete: bool, totalPages: int, pagesPerFile: seq<int>, out: map<int, seq<Run>>,
    lock: Holder, prod: Producer, cons: seq<Consumer>)

  /** `wakes` is the scheduler's choice of the consumers a signal of `fill` wakes. */
  datatype Step = ProducerStep(wakes: set<nat>) | ConsumerStep(c: nat) | SpuriousProducer | SpuriousConsumer(c: nat)

  function Init(cfg: Config): State {
    State(Ring(seq(Q_CAPACITY, _ => Page(0, 0, 0, 0)), 0, 0, 0), false, 0, cfg.garbage, map[], Free, PFile(0),
          seq(cfg.consumers, _ => CTop))
  }

  /** What makes a step of the machine meaningful. */
  ghost predicate Shape(cfg: Config, s: State) {
    && RingShape(s.ring)
    && |s.pagesPerFile| == |cfg.files|
    && |s.cons| == cfg.consumers
    && (s.prod.PFile? ==> s.prod.i <= |cfg.files|)
    && (InsideFile(s.prod) ==> s.prod.i < |cfg.files|)
  }

  predicate InsideFile(p: Producer) {
    p.PPage? || p.PTest? || p.PAsleep? || p.PWoken? || p.PPut? || p.PSignal?
  }

  /** `pthread_cond_signal` wakes at least one waiter when there is one, and only waiters. */
  ghost predicate WakesSome(s: State, wakes: set<nat>) {
    && (forall c :: c in wakes ==> c < |s.cons| && s.cons[c].CAsleep?)
    && ((exists c :: 0 <= c < |s.cons| && s.cons[c].CAsleep?) ==> wakes != {})
  }

  function Pages(cfg: Config, i: nat): nat
    requires ConfigOk(cfg) && i < |cfg.files|
  {
    PagesInFile(|cfg.files[i]|, cfg.pageSize)
  }

  ghost predicate Enabled(cfg: Config, s: State, step: Step)
    requires ConfigOk(cfg) && Shape(cfg, s)
  {
    match step
    case ProducerStep(wakes) =>
      (match s.prod
       case PPage(i, j) => j >= Pages(cfg, i) || s.lock.Free?
       case PWoken(_, _) => s.lock.Free?
       case PPut(_, _) => s.lock.Free?
       case PSignal(_, _) => WakesSome(s, wakes)
       case PAsleep(_, _) => false
       case PDone => false
       case _ => true)
    case ConsumerStep(c) =>
      && c < |s.cons|
      && (match s.cons[c]
          case CTop => s.lock.Free?
          case CWoken => s.lock.Free?
          case CAsleep => false
          case CDone => false
          case _ => true)
    case SpuriousProducer => s.prod.PAsleep?
    case SpuriousConsumer(c) => c < |s.cons| && s.cons[c].CAsleep?
  }

  function WakeConsumers(cons: seq<Consumer>, wakes: set<nat>): (r: seq<Consumer>)
    ensures |r| == |cons|
    ensures forall c :: 0 <= c < |cons| ==> r[c] == if c in wakes && cons[c].CAsleep? then CWoken else cons[c]
  {
    seq(|cons|, c requires 0 <= c < |cons| => if c in wakes && cons[c].CAsleep? then CWoken else cons[c])
  }

  function WakeAll(cons: seq<Consumer>): (r: seq<Consumer>)
    ensures |r| == |cons|
    ensures forall c :: 0 <= c < |cons| ==> r[c] == if cons[c].CAsleep? then CWoken else cons[c]
  {
    seq(|cons|, c requires 0 <= c < |cons| => if cons[c].CAsleep? then CWoken else cons[c])
  }

  /** `pthread_cond_signal(&empty)`: only the producer ever waits on `empty`. */
  function WakeProducer(p: Producer): Producer {
    if p.PAsleep? then PWoken(p.i, p.j) else p
  }

  function ProducerNext(cfg: Config, s: State, wakes: set<nat>): State
    requires ConfigOk(cfg) && Shape(cfg, s)
  {
    match s.prod
    case PFile(i) =>
      if i == |cfg.files| then s.(prod := PFinish)
      else if |cfg.files[i]| == 0 then s.(prod := PFile(i + 1))
      else
        s.(totalPages := s.totalPages + Pages(cfg, i), pagesPerFile := s.pagesPerFile[i := Pages(cfg, i)],
           prod := PPage(i, 0))
    case PPage(i, j) =>
      if j < Pages(cfg, i) then s.(lock := ByProducer, prod := PTest(i, j)) else s.(prod := PFile(i + 1))
    case PTest(i, j) =>
      if s.ring.size == Q_CAPACITY then s.(cons := WakeAll(s.cons), lock := Free, prod := PAsleep(i, j))
      else s.(lock := Free, prod := PPut(i, j))
    case PAsleep(_, _) => s
    case PWoken(i, j) => s.(lock := ByProducer, prod := PTest(i, j))
    case PPut(i, j) =>
      s.(ring := RingPut(s.ring, PageOf(|cfg.files[i]|, i, j, cfg.pageSize)), prod := PSignal(i, j))
    case PSignal(i, j) => s.(cons := WakeConsumers(s.cons, wakes), prod := PPage(i, j + 1))
    case PFinish => s.(isComplete := true, prod := PBroadcast)
    case PBroadcast => s.(cons := WakeAll(s.cons), prod := PDone)
    case PDone => s
  }

  /** `calculateOutputPosition`, reading `pages_per_file` as it stands. */
  function Position(pagesPerFile: seq<int>, page: Page): int {
    if page.file <= |pagesPerFile| then SumFirst(pagesPerFile, page.file) + page.number else 0
  }

  function ConsumerNext(cfg: Config, s: State, c: nat): State
    requires Shape(cfg, s) && c < |s.cons|
  {
    match s.cons[c]
    case CTop => s.(lock := ByConsumer(c), cons := s.cons[c := CTest])
    case CTest =>
      if s.ring.size == 0 && !s.isComplete
      then s.(prod := WakeProducer(s.prod), cons := s.cons[c := CBeforeWait])
      else s.(cons := s.cons[c := CDecide])
    case CBeforeWait => s.(lock := Free, cons := s.cons[c := CAsleep])
    case CAsleep => s
    case CWoken => s.(lock := ByConsumer(c), cons := s.cons[c := CTest])
    case CDecide =>
      if s.isComplete && s.ring.size == 0 then s.(lock := Free, cons := s.cons[c := CDone])
      else s.(ring := RingGet(s.ring), cons := s.cons[c := CTook(s.ring.buf[s.ring.tail])])
    case CTook(page) =>
      s.(prod := if s.isComplete then s.prod else WakeProducer(s.prod), lock := Free, cons := s.cons[c := CWork(page)])
    case CWork(page) =>
      s.(out := s.out[Position(s.pagesPerFile, page) := Encode(Content(cfg.files, page))], cons := s.cons[c := CLoop])
    case CLoop => s.(cons := s.cons[c := if s.isComplete then CLoopSize else CTop])
    case CLoopSize => s.(cons := s.cons[c := if s.ring.size == 0 then CDone else CTop])
    case CDone => s
  }

  ghost function Next(cfg: Config, s: State, step: Step): (s': State)
    requires ConfigOk(cfg) && Shape(cfg, s)
    ensures Shape(cfg, s')
  {
    if !Enabled(cfg, s, step) then s
    else
      match step
      case ProducerStep(wakes) => ProducerNext(cfg, s, wakes)
      case ConsumerStep(c) => ConsumerNext(cfg, s, c)
      case SpuriousProducer => s.(prod := WakeProducer(s.prod))
      case SpuriousConsumer(c) => s.(cons := s.cons[c := CWoken])
  }

  ghost function Exec(cfg: Config, steps: seq<Step>): (s: State)
    requires ConfigOk(cfg)
    ensures Shape(cfg, s)
  {
    if steps == [] then Init(cfg) else Next(cfg, Exec(cfg, steps[..|steps| - 1]), steps[|steps| - 1])
  }
}
