/** What a run of pzip3 has done: the pages it put into the queue, took out and wrote, in the order of the steps. */
module Pzip3History {
  import opened Pzip3Pages
  import opened Pzip3Work
  import opened Pzip3Protocol
  import opened Pzip3Invariant

  // ---- what one step does

  ghost function PutBy(cfg: Config, s: State, step: Step): seq<Page>
    requires ConfigOk(cfg) && Shape(cfg, s)
  {
    if Enabled(cfg, s, step) && step.ProducerStep? && s.prod.PPut?
    then [PageOf(|cfg.files[s.prod.i]|, s.prod.i, s.prod.j, cfg.pageSize)] else []
  }

  ghost predicate Takes(cfg: Config, s: State, step: Step)
    requires ConfigOk(cfg) && Shape(cfg, s)
  {
    && Enabled(cfg, s, step) && step.ConsumerStep?
    && s.cons[step.c].CDecide? && !(s.isComplete && s.ring.size == 0)
  }

  ghost function GotBy(cfg: Config, s: State, step: Step): seq<Page>
    requires ConfigOk(cfg) && Shape(cfg, s)
  {
    if Takes(cfg, s, step) then [s.ring.buf[s.ring.tail]] else []
  }

  ghost function WrittenBy(cfg: Config, s: State, step: Step): seq<Page>
    requires ConfigOk(cfg) && Shape(cfg, s)
  {
    if Enabled(cfg, s, step) && step.ConsumerStep? && s.cons[step.c].CWork? then [s.cons[step.c].page] else []
  }

  // ---- what a run has done

  /** The pages passed to `put`. */
  ghost function Puts(cfg: Config, steps: seq<Step>): seq<Page>
    requires ConfigOk(cfg)
  {
    if steps == [] then []
    else
      var front := steps[..|steps| - 1];
      Puts(cfg, front) + PutBy(cfg, Exec(cfg, front), steps[|steps| - 1])
  }

  /** The pages `get` returned. */
  ghost function Gets(cfg: Config, steps: seq<Step>): seq<Page>
    requires ConfigOk(cfg)
  {
    if steps == [] then []
    else
      var front := steps[..|steps| - 1];
      Gets(cfg, front) + GotBy(cfg, Exec(cfg, front), steps[|steps| - 1])
  }

  /** The pages whose output was stored. */
  ghost function Writes(cfg: Config, steps: seq<Step>): seq<Page>
    requires ConfigOk(cfg)
  {
    if steps == [] then []
    else
      var front := steps[..|steps| - 1];
      Writes(cfg, front) + WrittenBy(cfg, Exec(cfg, front), steps[|steps| - 1])
  }

  // ---- puts and gets against the list of all pages

  lemma StepCounts(cfg: Config, s: State, step: Step)
    requires Inv(cfg, s)
    ensures var s' := Next(cfg, s, step);
      && Enqueued(cfg, s'.prod) == Enqueued(cfg, s.prod) + |PutBy(cfg, s, step)|
      && Dequeued(cfg, s') == Dequeued(cfg, s) + |GotBy(cfg, s, step)|
  {
    if Enabled(cfg, s, step) {
      match step
      case ProducerStep(wakes) =>
        ProducerQueue(cfg, s, wakes);
        if s.prod.PPut? {
          PutInv(cfg, s);
        } else {
          ProducerCounts(cfg, s, wakes);
        }
      case ConsumerStep(c) =>
        ConsumerProducer(cfg, s, c);
        if !Takes(cfg, s, step) && !s.cons[c].CWork? {
          ConsumerLeaves(cfg, s, c);
        }
      case SpuriousProducer =>
      case SpuriousConsumer(c) =>
    }
  }

  lemma NextPut(cfg: Config, s: State, step: Step)
    requires Inv(cfg, s)
    ensures Enqueued(cfg, s.prod) + |PutBy(cfg, s, step)| <= |All(cfg)|
    ensures PutBy(cfg, s, step) == All(cfg)[Enqueued(cfg, s.prod)..Enqueued(cfg, s.prod) + |PutBy(cfg, s, step)|]
  {
    if PutBy(cfg, s, step) != [] {
      NextPageIs(cfg, s.prod.i, s.prod.j);
    }
  }

  lemma NextGot(cfg: Config, s: State, step: Step)
    requires Inv(cfg, s)
    ensures Dequeued(cfg, s) + |GotBy(cfg, s, step)| <= |All(cfg)|
    ensures GotBy(cfg, s, step) == All(cfg)[Dequeued(cfg, s)..Dequeued(cfg, s) + |GotBy(cfg, s, step)|]
  {
    if Takes(cfg, s, step) {
      OldestPage(cfg, s);
    }
  }

  lemma OldestPage(cfg: Config, s: State)
    requires ConfigOk(cfg) && Shape(cfg, s) && QueueInv(cfg, s) && s.ring.size > 0
    ensures 0 <= Dequeued(cfg, s) < |All(cfg)| && s.ring.buf[s.ring.tail] == All(cfg)[Dequeued(cfg, s)]
  {
    GetSlice(All(cfg), s.ring, Dequeued(cfg, s), Enqueued(cfg, s.prod));
  }

  lemma Extend<T>(all: seq<T>, k: nat, x: seq<T>)
    requires k + |x| <= |all| && x == all[k..k + |x|]
    ensures all[..k] + x == all[..k + |x|]
  {
  }

  lemma StepExtends(cfg: Config, s: State, step: Step)
    requires Inv(cfg, s)
    ensures var s' := Next(cfg, s, step);
      && 0 <= Dequeued(cfg, s) && 0 <= Dequeued(cfg, s') <= |All(cfg)| && Enqueued(cfg, s'.prod) <= |All(cfg)|
      && All(cfg)[..Enqueued(cfg, s.prod)] + PutBy(cfg, s, step) == All(cfg)[..Enqueued(cfg, s'.prod)]
      && All(cfg)[..Dequeued(cfg, s)] + GotBy(cfg, s, step) == All(cfg)[..Dequeued(cfg, s')]
  {
    StepCounts(cfg, s, step);
    NextPut(cfg, s, step);
    NextGot(cfg, s, step);
    Extend(All(cfg), Enqueued(cfg, s.prod), PutBy(cfg, s, step));
    Extend(All(cfg), Dequeued(cfg, s), GotBy(cfg, s, step));
  }

  lemma RunExtends(cfg: Config, front: seq<Step>, step: Step)
    requires ConfigOk(cfg)
    ensures var s, s' := Exec(cfg, front), Next(cfg, Exec(cfg, front), step);
      && 0 <= Dequeued(cfg, s) <= |All(cfg)| && 0 <= Dequeued(cfg, s') <= |All(cfg)|
      && Enqueued(cfg, s.prod) <= |All(cfg)| && Enqueued(cfg, s'.prod) <= |All(cfg)|
      && All(cfg)[..Enqueued(cfg, s.prod)] + PutBy(cfg, s, step) == All(cfg)[..Enqueued(cfg, s'.prod)]
      && All(cfg)[..Dequeued(cfg, s)] + GotBy(cfg, s, step) == All(cfg)[..Dequeued(cfg, s')]
  {
    RunInv(cfg, front);
    StepExtends(cfg, Exec(cfg, front), step);
  }

  /** The pages put are the first ones of the list of all pages, as many as the producer's place in the code says; the
      pages taken are the first ones too, as many fewer as the queue holds. */
  lemma {:induction false} QueueHistory(cfg: Config, steps: seq<Step>)
    requires ConfigOk(cfg)
    ensures var s := Exec(cfg, steps);
      && 0 <= Dequeued(cfg, s) <= |All(cfg)| && Enqueued(cfg, s.prod) <= |All(cfg)|
      && Puts(cfg, steps) == All(cfg)[..Enqueued(cfg, s.prod)]
      && Gets(cfg, steps) == All(cfg)[..Dequeued(cfg, s)]
  {
    if steps == [] {
      assert Enqueued(cfg, Init(cfg).prod) == 0 == Dequeued(cfg, Init(cfg));
    } else {
      QueueHistory(cfg, steps[..|steps| - 1]);
      RunExtends(cfg, steps[..|steps| - 1], steps[|steps| - 1]);
    }
  }

  /** The queue between them: what was put is what was taken followed by what waits, so pages leave in the order they
      entered, none lost and none twice; and they enter in the order of files and pages. */
  lemma QueueInOrder(cfg: Config, steps: seq<Step>)
    requires ConfigOk(cfg)
    ensures Puts(cfg, steps) == Gets(cfg, steps) + Queued(Exec(cfg, steps).ring)
    ensures Puts(cfg, steps) <= All(cfg)
  {
    RunInv(cfg, steps);
    QueueHistory(cfg, steps);
    var s := Exec(cfg, steps);
    Parts(All(cfg), Dequeued(cfg, s), Enqueued(cfg, s.prod));
  }

  lemma Parts<T>(all: seq<T>, d: nat, e: nat)
    requires d <= e <= |all|
    ensures all[..e] == all[..d] + all[d..e]
  {
  }

  // ---- writes

  /** The page in one consumer's hands, if any. */
  function Hand(c: Consumer): multiset<Page> {
    if HasPage(c) then multiset{c.page} else multiset{}
  }

  function InHands(cons: seq<Consumer>): multiset<Page> {
    if cons == [] then multiset{} else InHands(cons[..|cons| - 1]) + Hand(cons[|cons| - 1])
  }

  lemma HandsSnoc(front: seq<Consumer>, last: Consumer)
    ensures InHands(front + [last]) == InHands(front) + Hand(last)
  {
    assert (front + [last])[..|front|] == front;
  }

  lemma UpdateSnoc(cons: seq<Consumer>, c: nat, to: Consumer)
    requires c < |cons|
    ensures var n := |cons| - 1;
      && cons == cons[..n] + [cons[n]]
      && (c == n ==> cons[c := to] == cons[..n] + [to])
      && (c < n ==> cons[c := to] == cons[..n][c := to] + [cons[n]] && cons[..n][c] == cons[c])
  {
  }

  lemma {:induction false} HandsUpdated(cons: seq<Consumer>, c: nat, to: Consumer)
    requires c < |cons|
    ensures InHands(cons[c := to]) + Hand(cons[c]) == InHands(cons) + Hand(to)
  {
    var front, last := cons[..|cons| - 1], cons[|cons| - 1];
    UpdateSnoc(cons, c, to);
    HandsSnoc(front, last);
    if c == |cons| - 1 {
      HandsSnoc(front, to);
      Exchange(InHands(front), Hand(last), Hand(to));
    } else {
      HandsUpdated(front, c, to);
      HandsSnoc(front[c := to], last);
      AddBoth(InHands(front[c := to]), Hand(cons[c]), InHands(front), Hand(to), Hand(last));
    }
  }

  lemma Exchange<T>(a: multiset<T>, x: multiset<T>, y: multiset<T>)
    ensures (a + y) + x == (a + x) + y
  {
  }

  lemma AddBoth<T>(a': multiset<T>, h: multiset<T>, a: multiset<T>, h': multiset<T>, x: multiset<T>)
    requires a' + h == a + h'
    ensures (a' + x) + h == (a + x) + h'
  {
    forall y ensures ((a' + x) + h)[y] == ((a + x) + h')[y] {
      assert (a' + h)[y] == (a + h')[y];
    }
  }

  lemma {:induction false} HandsSame(a: seq<Consumer>, b: seq<Consumer>)
    requires |a| == |b| && forall c :: 0 <= c < |a| ==> Hand(a[c]) == Hand(b[c])
    ensures InHands(a) == InHands(b)
  {
    if a == [] {
    } else {
      HandsSame(a[..|a| - 1], b[..|b| - 1]);
    }
  }

  lemma StepHands(cfg: Config, s: State, step: Step)
    requires ConfigOk(cfg) && Shape(cfg, s)
    ensures InHands(Next(cfg, s, step).cons) + multiset(WrittenBy(cfg, s, step))
         == InHands(s.cons) + multiset(GotBy(cfg, s, step))
  {
    if Enabled(cfg, s, step) && step.ConsumerStep? {
      ConsumerHands(cfg, s, step.c);
    } else {
      OtherHands(cfg, s, step);
    }
  }

  lemma OtherHands(cfg: Config, s: State, step: Step)
    requires ConfigOk(cfg) && Shape(cfg, s) && !(Enabled(cfg, s, step) && step.ConsumerStep?)
    ensures InHands(Next(cfg, s, step).cons) == InHands(s.cons)
  {
    if Enabled(cfg, s, step) && step.ProducerStep? {
      ProducerHands(cfg, s, step.wakes);
    }
    HandsSame(s.cons, Next(cfg, s, step).cons);
  }

  lemma ConsumerHands(cfg: Config, s: State, c: nat)
    requires ConfigOk(cfg) && Shape(cfg, s) && Enabled(cfg, s, ConsumerStep(c))
    ensures InHands(ConsumerNext(cfg, s, c).cons) + multiset(WrittenBy(cfg, s, ConsumerStep(c)))
         == InHands(s.cons) + multiset(GotBy(cfg, s, ConsumerStep(c)))
  {
    var s' := ConsumerNext(cfg, s, c);
    ConsumerMoves(cfg, s, c);
    assert s'.cons == s.cons[c := s'.cons[c]];
    HandsUpdated(s.cons, c, s'.cons[c]);
    OneHand(cfg, s, c);
    Swap(InHands(s'.cons), Hand(s.cons[c]), InHands(s.cons), Hand(s'.cons[c]),
         multiset(WrittenBy(cfg, s, ConsumerStep(c))), multiset(GotBy(cfg, s, ConsumerStep(c))));
  }

  /** One step of a consumer changes what it holds by what it takes and what it writes. */
  lemma OneHand(cfg: Config, s: State, c: nat)
    requires ConfigOk(cfg) && Shape(cfg, s) && Enabled(cfg, s, ConsumerStep(c))
    ensures Hand(ConsumerNext(cfg, s, c).cons[c]) + multiset(WrittenBy(cfg, s, ConsumerStep(c)))
         == Hand(s.cons[c]) + multiset(GotBy(cfg, s, ConsumerStep(c)))
  {
    if !Takes(cfg, s, ConsumerStep(c)) && !s.cons[c].CWork? {
      ConsumerLeaves(cfg, s, c);
    }
  }

  lemma Swap<T>(a': multiset<T>, h: multiset<T>, a: multiset<T>, h': multiset<T>, w: multiset<T>, g: multiset<T>)
    requires a' + h == a + h' && h' + w == h + g
    ensures a' + w == a + g
  {
    forall x ensures (a' + w)[x] == (a + g)[x] {
      assert (a' + h)[x] == (a + h')[x] && (h' + w)[x] == (h + g)[x];
    }
  }

  /** Conservation: every page taken was written or is in some consumer's hands, as often as it was taken. */
  lemma {:induction false} PagesConserved(cfg: Config, steps: seq<Step>)
    requires ConfigOk(cfg)
    ensures multiset(Gets(cfg, steps)) == multiset(Writes(cfg, steps)) + InHands(Exec(cfg, steps).cons)
  {
    if steps == [] {
      NoHands(Init(cfg).cons);
    } else {
      var front, step := steps[..|steps| - 1], steps[|steps| - 1];
      PagesConserved(cfg, front);
      StepHands(cfg, Exec(cfg, front), step);
      Balance(Gets(cfg, front), Writes(cfg, front), InHands(Exec(cfg, front).cons),
              GotBy(cfg, Exec(cfg, front), step), WrittenBy(cfg, Exec(cfg, front), step),
              InHands(Exec(cfg, steps).cons));
    }
  }

  lemma Balance<T>(g: seq<T>, w: seq<T>, h: multiset<T>, gx: seq<T>, wx: seq<T>, h': multiset<T>)
    requires multiset(g) == multiset(w) + h && h' + multiset(wx) == h + multiset(gx)
    ensures multiset(g + gx) == multiset(w + wx) + h'
  {
    forall x ensures multiset(g + gx)[x] == (multiset(w + wx) + h')[x] {
      assert (h' + multiset(wx))[x] == (h + multiset(gx))[x];
    }
  }

  lemma {:induction false} NoHands(cons: seq<Consumer>)
    requires forall c :: 0 <= c < |cons| ==> !HasPage(cons[c])
    ensures InHands(cons) == multiset{}
  {
    if cons == [] {
    } else {
      NoHands(cons[..|cons| - 1]);
    }
  }
}
