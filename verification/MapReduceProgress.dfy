/** How runs of the MapReduce library end: the work of a run is bounded, and a run that can go no further is done. */
module MapReduceProgress {
  import opened Rle
  import opened CString
  import opened MapReduce
  import opened MapReduceProtocol

  // ---- where runs end

  /** No step changes the state. */
  ghost predicate Stuck(cfg: Config, s: State) {
    forall step :: Next(cfg, s, step) == s
  }

  /** A run that can go no further has joined all mappers and all reducers. */
  lemma StuckIsFinished(cfg: Config, steps: seq<Step>)
    requires ConfigOk(cfg) && Stuck(cfg, Exec(cfg, steps))
    ensures Finished(cfg, Exec(cfg, steps))
  {
    RunInv(cfg, steps);
    var s := Exec(cfg, steps);
    MappersMove(cfg, s);
    if s.partitioned {
      forall p | 0 <= p < |s.reducers| ensures s.reducers[p].Done? {
        ReducerMoves(cfg, s, p);
      }
    }
  }

  lemma MappersMove(cfg: Config, s: State)
    requires MapInv(cfg, s) && Stuck(cfg, s)
    ensures s.partitioned
  {
    assert Next(cfg, s, MainStep) == s;
    if !s.partitioned {
      forall m | 0 <= m < |cfg.emits| ensures s.sent[m] == |cfg.emits[m]| {
        assert Next(cfg, s, Emit(m)) == s;
      }
    }
  }

  lemma ReducerMoves(cfg: Config, s: State, p: nat)
    requires Stuck(cfg, s) && p < |s.reducers| && p < |s.parts| && p < |s.partCount|
    ensures s.reducers[p].Done?
  {
    assert Next(cfg, s, Reduce(p)) == s;
    ReducerAdvances(s, p);
  }

  /** Every step of a reducer that is not done changes something. */
  lemma ReducerAdvances(s: State, p: nat)
    requires p < |s.reducers| && p < |s.parts| && p < |s.partCount| && ReducerNext(s, p) == s
    ensures s.reducers[p].Done?
  {
    var e := Effect(s.parts[p], s.partCount[p], s.reducers[p], p);
    ReducerEffect(s, p);
    var t := ReducerNext(s, p);
    assert t.partCount[p] == e.0 && t.reducers[p] == e.1;
  }

  // ---- a bound on the work of a run

  /** A reducer that has just entered `Reduce` stands on a record of its key. */
  ghost predicate EntersOnKey(s: State, p: nat)
    requires p < |s.reducers| && p < |s.parts| && p < |s.partCount|
  {
    s.reducers[p].Drain? && s.reducers[p].values == [] ==>
      s.partCount[p] < |s.parts[p]| && s.parts[p][s.partCount[p]].key == s.reducers[p].key
  }

  ghost predicate EntryInv(s: State) {
    forall p :: 0 <= p < |s.reducers| && p < |s.parts| && p < |s.partCount| ==> EntersOnKey(s, p)
  }

  lemma {:induction false} CompareSelf(a: seq<byte>)
    ensures StrCmp(a, a) == 0
  {
    if a == [] {
    } else {
      CompareSelf(a[1..]);
    }
  }

  /** Steps a reducer with `rest` records in front of it has left. */
  function Rank(r: Reducer, rest: int): int {
    match r
    case Test => 3 * rest + 1
    case Drain(_, values) => if values == [] then 3 * rest else 3 * rest + 2
    case Done => 0
  }

  function RankSum(s: State, n: nat): int
    requires n <= |s.reducers| && n <= |s.parts| && n <= |s.partCount|
  {
    if n == 0 then 0
    else RankSum(s, n - 1) + Rank(s.reducers[n - 1], |s.parts[n - 1]| - s.partCount[n - 1])
  }

  function EmitsLeft(emits: seq<seq<Record>>, sent: seq<nat>): int
    requires |sent| == |emits|
  {
    if emits == [] then 0
    else EmitsLeft(emits[..|emits| - 1], sent[..|emits| - 1]) + |emits[|emits| - 1]| - sent[|emits| - 1]
  }

  /** What a state has left: four steps for an emit to come, three for a record to reduce, one for each reducer. */
  function WorkLeft(cfg: Config, s: State): int
    requires |s.sent| == |cfg.emits|
  {
    if !s.partitioned then 4 * EmitsLeft(cfg.emits, s.sent) + 3 * |s.allData| + cfg.partitions + 1
    else if |s.reducers| == |s.parts| == |s.partCount| then RankSum(s, |s.reducers|)
    else 0
  }

  lemma {:induction false} EmitsLeftLess(emits: seq<seq<Record>>, sent: seq<nat>, m: nat)
    requires |sent| == |emits| && m < |emits|
    ensures EmitsLeft(emits, sent[m := sent[m] + 1]) == EmitsLeft(emits, sent) - 1
  {
    var n := |emits| - 1;
    if m == n {
      assert sent[m := sent[m] + 1][..n] == sent[..n];
    } else {
      EmitsLeftLess(emits[..n], sent[..n], m);
      assert sent[m := sent[m] + 1][..n] == sent[..n][m := sent[..n][m] + 1];
    }
  }

  lemma {:induction false} EmitsLeftNonNegative(emits: seq<seq<Record>>, sent: seq<nat>)
    requires |sent| == |emits| && forall m :: 0 <= m < |emits| ==> sent[m] <= |emits[m]|
    ensures EmitsLeft(emits, sent) >= 0
    ensures (forall m :: 0 <= m < |emits| ==> sent[m] == |emits[m]|) ==> EmitsLeft(emits, sent) == 0
  {
    if emits == [] {
    } else {
      EmitsLeftNonNegative(emits[..|emits| - 1], sent[..|emits| - 1]);
    }
  }

  /** The partitions hold every record once. */
  function PartSizes(all: seq<Record>, partition: Partitioner, n: nat): nat {
    if n == 0 then 0 else PartSizes(all, partition, n - 1) + |PartitionOf(all, partition, n - 1)|
  }

  lemma {:induction false} PartSizesSnoc(all: seq<Record>, r: Record, partition: Partitioner, n: nat)
    ensures PartSizes(all + [r], partition, n)
         == PartSizes(all, partition, n) + if partition(r.key) < n then 1 else 0
  {
    if n == 0 {
    } else {
      PartSizesSnoc(all, r, partition, n - 1);
      assert (all + [r])[..|all|] == all;
    }
  }

  lemma {:induction false} PartSizesNone(partition: Partitioner, n: nat)
    ensures PartSizes([], partition, n) == 0
  {
    if n == 0 {
    } else {
      PartSizesNone(partition, n - 1);
    }
  }

  lemma {:induction false} PartSizesAll(all: seq<Record>, partition: Partitioner, n: nat)
    requires forall key :: partition(key) < n
    ensures PartSizes(all, partition, n) == |all|
  {
    if all == [] {
      PartSizesNone(partition, n);
    } else {
      var front, r := all[..|all| - 1], all[|all| - 1];
      PartSizesAll(front, partition, n);
      PartSizesSnoc(front, r, partition, n);
      assert all == front + [r];
    }
  }

  lemma {:induction false} RankSumStart(cfg: Config, s: State, n: nat)
    requires n <= |s.reducers| && n <= |s.parts| && n <= |s.partCount|
    requires forall p :: 0 <= p < n ==>
      s.reducers[p] == Test && s.partCount[p] == 0 && s.parts[p] == PartitionOf(s.allData, cfg.partition, p)
    ensures RankSum(s, n) == 3 * PartSizes(s.allData, cfg.partition, n) + n
  {
    if n == 0 {
    } else {
      RankSumStart(cfg, s, n - 1);
    }
  }

  lemma {:induction false} RankSumUpdated(s: State, t: State, p: nat, n: nat)
    requires n <= |s.reducers| == |t.reducers| && n <= |s.partCount| == |t.partCount| && t.parts == s.parts
    requires n <= |s.parts| && p < |s.parts| && p < |s.reducers| && p < |s.partCount|
    requires forall q :: 0 <= q < n && q != p ==> t.reducers[q] == s.reducers[q] && t.partCount[q] == s.partCount[q]
    ensures RankSum(t, n) == RankSum(s, n)
      + if p < n then Rank(t.reducers[p], |s.parts[p]| - t.partCount[p])
                      - Rank(s.reducers[p], |s.parts[p]| - s.partCount[p])
        else 0
  {
    if n == 0 {
    } else {
      RankSumUpdated(s, t, p, n - 1);
    }
  }

  lemma {:induction false} RankSumNonNegative(s: State, n: nat)
    requires n <= |s.reducers| && n <= |s.parts| && n <= |s.partCount|
    requires forall p :: 0 <= p < n ==> s.partCount[p] <= |s.parts[p]|
    ensures RankSum(s, n) >= 0
  {
    if n == 0 {
    } else {
      RankSumNonNegative(s, n - 1);
    }
  }

  lemma EmitWorks(cfg: Config, s: State, m: nat)
    requires MapInv(cfg, s) && Appends(cfg, s, Emit(m))
    ensures WorkLeft(cfg, Next(cfg, s, Emit(m))) < WorkLeft(cfg, s)
  {
    EmitsLeftLess(cfg.emits, s.sent, m);
  }

  lemma MainWorks(cfg: Config, s: State)
    requires ConfigOk(cfg) && MapInv(cfg, s) && !s.partitioned && MappersDone(cfg, s)
    ensures WorkLeft(cfg, Next(cfg, s, MainStep)) < WorkLeft(cfg, s)
  {
    EmitsLeftNonNegative(cfg.emits, s.sent);
    RankSumStart(cfg, Next(cfg, s, MainStep), cfg.partitions);
    PartSizesAll(s.allData, cfg.partition, cfg.partitions);
  }

  lemma RankFalls(s: State, p: nat)
    requires p < |s.parts| && p < |s.partCount| && p < |s.reducers| && EntersOnKey(s, p)
    requires s.partCount[p] <= |s.parts[p]| && !s.reducers[p].Done?
    ensures var t := ReducerNext(s, p);
      Rank(t.reducers[p], |s.parts[p]| - t.partCount[p]) < Rank(s.reducers[p], |s.parts[p]| - s.partCount[p])
  {
    if s.reducers[p].Drain? {
      CompareSelf(s.reducers[p].key);
    }
  }

  lemma ReducerWorks(cfg: Config, s: State, p: nat)
    requires ReduceInv(cfg, s) && s.partitioned && EntryInv(s) && |s.sent| == |cfg.emits|
    requires p < |s.reducers| && ReducerNext(s, p) != s
    ensures WorkLeft(cfg, ReducerNext(s, p)) < WorkLeft(cfg, s)
  {
    assert PartInv(cfg, s, p) && EntersOnKey(s, p);
    ReducerFrame(s, p);
    RankFalls(s, p);
    RankSumUpdated(s, ReducerNext(s, p), p, |s.reducers|);
  }

  lemma ReducerEnters(s: State, p: nat)
    requires p < |s.parts| && p < |s.partCount| && p < |s.reducers| && EntersOnKey(s, p)
    ensures p < |ReducerNext(s, p).reducers| && p < |ReducerNext(s, p).parts| && p < |ReducerNext(s, p).partCount|
    ensures EntersOnKey(ReducerNext(s, p), p)
  {
  }

  lemma StepEntry(cfg: Config, s: State, step: Step)
    requires EntryInv(s)
    ensures EntryInv(Next(cfg, s, step))
  {
    match step
    case Emit(m) => SameEntry(s, Next(cfg, s, step));
    case MainStep =>
      if s.partitioned || !MappersDone(cfg, s) {
        SameEntry(s, Next(cfg, s, step));
      }
    case Reduce(p) =>
      if p < |s.reducers| && p < |s.parts| && p < |s.partCount| {
        ReducerEntry(s, p);
      } else {
        SameEntry(s, Next(cfg, s, step));
      }
  }

  lemma SameEntry(s: State, t: State)
    requires EntryInv(s) && t.reducers == s.reducers && t.parts == s.parts && t.partCount == s.partCount
    ensures EntryInv(t)
  {
    forall q | 0 <= q < |t.reducers| && q < |t.parts| && q < |t.partCount| ensures EntersOnKey(t, q) {
      assert EntersOnKey(s, q);
    }
  }

  lemma ReducerEntry(s: State, p: nat)
    requires EntryInv(s) && p < |s.reducers| && p < |s.parts| && p < |s.partCount|
    ensures EntryInv(ReducerNext(s, p))
  {
    var t := ReducerNext(s, p);
    ReducerFrame(s, p);
    ReducerEnters(s, p);
    forall q | 0 <= q < |t.reducers| && q < |t.parts| && q < |t.partCount| ensures EntersOnKey(t, q) {
      assert q != p ==> EntersOnKey(s, q);
    }
  }

  lemma StepWorks(cfg: Config, s: State, step: Step)
    requires ConfigOk(cfg) && Inv(cfg, s) && EntryInv(s) && Next(cfg, s, step) != s
    ensures |Next(cfg, s, step).sent| == |cfg.emits| && WorkLeft(cfg, Next(cfg, s, step)) < WorkLeft(cfg, s)
  {
    match step
    case Emit(m) => EmitWorks(cfg, s, m);
    case MainStep => MainWorks(cfg, s);
    case Reduce(p) =>
      ReducerFrame(s, p);
      ReducerWorks(cfg, s, p);
  }

  lemma WorkNonNegative(cfg: Config, s: State)
    requires Inv(cfg, s)
    ensures WorkLeft(cfg, s) >= 0
  {
    if s.partitioned {
      forall p | 0 <= p < cfg.partitions ensures s.partCount[p] <= |s.parts[p]| {
        assert PartInv(cfg, s, p);
      }
      RankSumNonNegative(s, |s.reducers|);
    } else {
      EmitsLeftNonNegative(cfg.emits, s.sent);
    }
  }

  /** How many steps of a run changed something. */
  ghost function Effective(cfg: Config, steps: seq<Step>): nat {
    if steps == [] then 0
    else
      var front, step := steps[..|steps| - 1], steps[|steps| - 1];
      Effective(cfg, front) + if Next(cfg, Exec(cfg, front), step) != Exec(cfg, front) then 1 else 0
  }

  lemma {:induction false} WorkIsSpent(cfg: Config, steps: seq<Step>)
    requires ConfigOk(cfg)
    ensures EntryInv(Exec(cfg, steps)) && |Exec(cfg, steps).sent| == |cfg.emits|
    ensures Effective(cfg, steps) + WorkLeft(cfg, Exec(cfg, steps)) <= WorkLeft(cfg, Init(cfg))
  {
    if steps == [] {
    } else {
      var front, step := steps[..|steps| - 1], steps[|steps| - 1];
      WorkIsSpent(cfg, front);
      RunInv(cfg, front);
      StepEntry(cfg, Exec(cfg, front), step);
      if Next(cfg, Exec(cfg, front), step) != Exec(cfg, front) {
        StepWorks(cfg, Exec(cfg, front), step);
      }
    }
  }

  /** The number of emits of all mappers. */
  function TotalEmits(emits: seq<seq<Record>>): nat {
    if emits == [] then 0 else TotalEmits(emits[..|emits| - 1]) + |emits[|emits| - 1]|
  }

  lemma {:induction false} AllLeft(emits: seq<seq<Record>>, sent: seq<nat>)
    requires |sent| == |emits| && forall m :: 0 <= m < |emits| ==> sent[m] == 0
    ensures EmitsLeft(emits, sent) == TotalEmits(emits)
  {
    if emits == [] {
    } else {
      AllLeft(emits[..|emits| - 1], sent[..|emits| - 1]);
    }
  }

  /** A run takes at most four steps for each emit and one for each partition, and one more, whatever the scheduler
      does. */
  lemma BoundedWork(cfg: Config, steps: seq<Step>)
    requires ConfigOk(cfg)
    ensures Effective(cfg, steps) <= 4 * TotalEmits(cfg.emits) + cfg.partitions + 1
  {
    WorkIsSpent(cfg, steps);
    RunInv(cfg, steps);
    WorkNonNegative(cfg, Exec(cfg, steps));
    AllLeft(cfg.emits, Init(cfg).sent);
  }

  /** A run in which every step changes something has no other steps to count. */
  lemma {:induction false} AllEffective(cfg: Config, steps: seq<Step>)
    requires ConfigOk(cfg)
    requires forall i :: 0 <= i < |steps| ==> Next(cfg, Exec(cfg, steps[..i]), steps[i]) != Exec(cfg, steps[..i])
    ensures Effective(cfg, steps) == |steps|
  {
    if steps == [] {
    } else {
      var front := steps[..|steps| - 1];
      assert forall i :: 0 <= i < |front| ==> front[..i] == steps[..i];
      AllEffective(cfg, front);
    }
  }
}
