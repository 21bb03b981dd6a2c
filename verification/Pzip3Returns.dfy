/** When the consumers of pzip3 return, and which of them sleep for ever. */
module Pzip3Returns {
  import opened Pzip3Protocol
  import opened Pzip3Invariant
  import opened Pzip3Progress

  /** A consumer returns exactly where it tests for the end, holding the lock or at the bottom of its loop, and exactly
      if the run is complete and the queue empty. */
  lemma ReturnsExactly(cfg: Config, steps: seq<Step>, c: nat)
    requires ConfigOk(cfg) && c < cfg.consumers && !Exec(cfg, steps).cons[c].CDone?
    ensures var s := Exec(cfg, steps);
      Next(cfg, s, ConsumerStep(c)).cons[c].CDone? <==>
        (s.cons[c].CDecide? || s.cons[c].CLoopSize?) && s.isComplete && s.ring.size == 0
  {
    RunInv(cfg, steps);
    ReturnStep(cfg, Exec(cfg, steps), c);
  }

  lemma ReturnStep(cfg: Config, s: State, c: nat)
    requires ConfigOk(cfg) && Shape(cfg, s) && ConsumerInv(s) && c < |s.cons| && !s.cons[c].CDone?
    ensures Next(cfg, s, ConsumerStep(c)).cons[c].CDone? <==>
            (s.cons[c].CDecide? || s.cons[c].CLoopSize?) && s.isComplete && s.ring.size == 0
  {
  }

  /** The signal before a consumer's wait (line 257) never wakes anyone: the producer sleeps only behind a full
      queue. */
  lemma NeedlessSignal(cfg: Config, steps: seq<Step>, c: nat)
    requires ConfigOk(cfg) && c < cfg.consumers && Exec(cfg, steps).cons[c].CTest?
    requires Exec(cfg, steps).ring.size == 0 && !Exec(cfg, steps).isComplete
    ensures var s := Exec(cfg, steps);
      Next(cfg, s, ConsumerStep(c)) == s.(cons := s.cons[c := CBeforeWait])
  {
    RunInv(cfg, steps);
    NeedlessWake(cfg, Exec(cfg, steps), c);
  }

  lemma NeedlessWake(cfg: Config, s: State, c: nat)
    requires ConfigOk(cfg) && Shape(cfg, s) && SleepInv(s) && c < |s.cons| && s.cons[c].CTest?
    requires s.ring.size == 0 && !s.isComplete
    ensures Next(cfg, s, ConsumerStep(c)) == s.(cons := s.cons[c := CBeforeWait])
  {
  }

  /** Consumer `c` waited when the last broadcast was over. */
  ghost predicate WaitedLate(cfg: Config, steps: seq<Step>, c: nat)
    requires ConfigOk(cfg)
  {
    exists i :: 0 <= i < |steps| && WaitsAt(cfg, steps, i, c)
  }

  ghost predicate WaitsAt(cfg: Config, steps: seq<Step>, i: nat, c: nat)
    requires ConfigOk(cfg) && i < |steps|
  {
    var s := Exec(cfg, steps[..i]);
    steps[i] == ConsumerStep(c) && s.prod.PDone? && c < |s.cons| && s.cons[c].CBeforeWait?
  }

  lemma WaitedSnoc(cfg: Config, steps: seq<Step>, c: nat)
    requires ConfigOk(cfg) && steps != []
    ensures var n := |steps| - 1;
      WaitedLate(cfg, steps, c) <==> WaitedLate(cfg, steps[..n], c) || WaitsAt(cfg, steps, n, c)
  {
    var n := |steps| - 1;
    if i :| 0 <= i < n && WaitsAt(cfg, steps[..n], i, c) {
      assert steps[..n][..i] == steps[..i];
      assert WaitsAt(cfg, steps, i, c);
    }
    if i :| 0 <= i < n && WaitsAt(cfg, steps, i, c) {
      assert steps[..n][..i] == steps[..i];
      assert WaitsAt(cfg, steps[..n], i, c);
    }
  }

  lemma DoneStays(cfg: Config, s: State, step: Step)
    requires ConfigOk(cfg) && Shape(cfg, s)
    ensures s.prod.PDone? ==> Next(cfg, s, step).prod.PDone?
    ensures !s.prod.PDone? && Next(cfg, s, step).prod.PDone? ==>
      forall c :: 0 <= c < |s.cons| ==> !Next(cfg, s, step).cons[c].CAsleep?
  {
  }

  lemma SleepStep(cfg: Config, s: State, step: Step, c: nat)
    requires ConfigOk(cfg) && Shape(cfg, s) && s.prod.PDone? && c < |s.cons| && step != SpuriousConsumer(c)
    ensures Next(cfg, s, step).cons[c].CAsleep? <==>
            s.cons[c].CAsleep? || (step == ConsumerStep(c) && s.cons[c].CBeforeWait?)
  {
  }

  /** Once the producer has returned, the consumers asleep are exactly those that went to sleep after its last
      broadcast: every other one has been woken. */
  lemma {:induction false} SleepersExactly(cfg: Config, steps: seq<Step>, c: nat)
    requires ConfigOk(cfg) && c < cfg.consumers && SpuriousConsumer(c) !in steps
    ensures Exec(cfg, steps).prod.PDone? ==> (Exec(cfg, steps).cons[c].CAsleep? <==> WaitedLate(cfg, steps, c))
    ensures !Exec(cfg, steps).prod.PDone? ==> !WaitedLate(cfg, steps, c)
  {
    if steps == [] {
    } else {
      var n := |steps| - 1;
      SleepersExactly(cfg, steps[..n], c);
      WaitedSnoc(cfg, steps, c);
      DoneStays(cfg, Exec(cfg, steps[..n]), steps[n]);
      if Exec(cfg, steps[..n]).prod.PDone? {
        SleepStep(cfg, Exec(cfg, steps[..n]), steps[n], c);
      }
    }
  }

  /** A run that can go no further has returned from all threads exactly if no consumer waited after the last
      broadcast. */
  lemma AllReturnExactly(cfg: Config, steps: seq<Step>)
    requires ConfigOk(cfg) && cfg.consumers > 0 && NoSpurious(steps) && Stuck(cfg, Exec(cfg, steps))
    ensures (forall c :: 0 <= c < cfg.consumers ==> Exec(cfg, steps).cons[c].CDone?) <==>
            forall c: nat :: c < cfg.consumers ==> !WaitedLate(cfg, steps, c)
  {
    StuckIsComplete(cfg, steps);
    forall c: nat | c < cfg.consumers
      ensures Exec(cfg, steps).cons[c].CDone? <==> !WaitedLate(cfg, steps, c)
    {
      forall k | 0 <= k < |steps| ensures steps[k] != SpuriousConsumer(c) {
        assert !Spurious(steps[k]);
      }
      SleepersExactly(cfg, steps, c);
    }
  }
}
