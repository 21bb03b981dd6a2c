/** concurrency-mapreduce/mapreduce.c with wordcount.c: mapper threads emitting under the lock, the partition loop, and
    one reducer thread for each partition, as a step machine. */
module MapReduceProtocol {
  import opened Rle
  import opened CString
  import opened MapReduce
  import WordCount

  /** `emits[m]` is what mapper `m` emits, in order; `partition` is the partitioner applied to `partitions`. */
  datatype Config = Config(emits: seq<seq<Record>>, partitions: nat, partition: Partitioner)

  ghost predicate ConfigOk(cfg: Config) {
    && (forall m :: 0 <= m < |cfg.emits| ==> CKeys(cfg.emits[m]))
    && (forall key :: cfg.partition(key) < cfg.partitions)
  }

  /** Where a reducer thread is: at the loop test of `MR_reduce`, in `Reduce` with the values got so far, or done. */
  datatype Reducer = Test | Drain(key: seq<byte>, values: seq<seq<byte>>) | Done

  /** A finished call of `Reduce` in partition `part`. */
  datatype Call = Call(part: nat, group: Group)

  /** `sent[m]` counts the emits of mapper `m` so far; `parts` is empty until the partition loop has run. */
  datatype State = State(
    allData: seq<Record>, sent: seq<nat>, partitioned: bool, parts: seq<seq<Record>>, partCount: seq<nat>,
    reducers: seq<Reducer>, log: seq<Call>)

  /** `MainStep` is the main thread joining the mappers and running the partition loop. */
  datatype Step = Emit(m: nat) | MainStep | Reduce(p: nat)

  function Init(cfg: Config): State {
    State([], seq(|cfg.emits|, _ => 0), false, [], [], [], [])
  }

  predicate MappersDone(cfg: Config, s: State) {
    |s.sent| == |cfg.emits| && forall m :: 0 <= m < |cfg.emits| ==> s.sent[m] == |cfg.emits[m]|
  }

  function PartitionList(cfg: Config, all: seq<Record>): (r: seq<seq<Record>>)
    ensures |r| == cfg.partitions
    ensures forall p :: 0 <= p < cfg.partitions ==> r[p] == PartitionOf(all, cfg.partition, p)
  {
    seq(cfg.partitions, p requires 0 <= p => PartitionOf(all, cfg.partition, p))
  }

  /** A step whose thread cannot move does nothing. */
  function Next(cfg: Config, s: State, step: Step): State {
    match step
    case Emit(m) =>
      if !s.partitioned && m < |s.sent| && m < |cfg.emits| && s.sent[m] < |cfg.emits[m]|
      then s.(allData := s.allData + [cfg.emits[m][s.sent[m]]], sent := s.sent[m := s.sent[m] + 1])
      else s
    case MainStep =>
      if !s.partitioned && MappersDone(cfg, s)
      then s.(partitioned := true, parts := PartitionList(cfg, s.allData),
              partCount := seq(cfg.partitions, _ => 0), reducers := seq(cfg.partitions, _ => Test))
      else s
    case Reduce(p) => if p < |s.reducers| && p < |s.parts| && p < |s.partCount| then ReducerNext(s, p) else s
  }

  function ReducerNext(s: State, p: nat): State
    requires p < |s.reducers| && p < |s.parts| && p < |s.partCount|
  {
    var at, num := s.partCount[p], |s.parts[p]|;
    match s.reducers[p]
    case Test =>
      if at < num then s.(reducers := s.reducers[p := Drain(s.parts[p][at].key, [])])
      else s.(reducers := s.reducers[p := Done])
    case Drain(key, values) =>
      if at < num && StrCmp(s.parts[p][at].key, key) == 0 then
        s.(partCount := s.partCount[p := at + 1],
           reducers := s.reducers[p := Drain(key, values + [s.parts[p][at].value])])
      else s.(log := s.log + [Call(p, Group(key, values))], reducers := s.reducers[p := Test])
    case Done => s
  }

  function Exec(cfg: Config, steps: seq<Step>): State {
    if steps == [] then Init(cfg) else Next(cfg, Exec(cfg, steps[..|steps| - 1]), steps[|steps| - 1])
  }

  // ---- the mapping phase

  /** The values emitted so far with the key, over all mappers. */
  function SentValues(emits: seq<seq<Record>>, sent: seq<nat>, key: seq<byte>): multiset<seq<byte>>
    requires |sent| == |emits| && forall m :: 0 <= m < |emits| ==> sent[m] <= |emits[m]|
  {
    if emits == [] then multiset{}
    else
      var n := |emits| - 1;
      SentValues(emits[..n], sent[..n], key) + ValuesOf(emits[n][..sent[n]], key)
  }

  /** The values that records of one key carry. */
  function ValuesOf(s: seq<Record>, key: seq<byte>): multiset<seq<byte>> {
    multiset(Values(Select(s, key)))
  }

  lemma ValuesSnoc(s: seq<Record>, r: Record, key: seq<byte>)
    ensures ValuesOf(s + [r], key) == ValuesOf(s, key) + One(r, key)
  {
    SelectSnoc(s, r, key);
    if r.key == key {
      assert Values(Select(s, key) + [r]) == Values(Select(s, key)) + [r.value];
    }
  }

  function One(r: Record, key: seq<byte>): multiset<seq<byte>> {
    if r.key == key then multiset{r.value} else multiset{}
  }

  ghost predicate SentOk(cfg: Config, sent: seq<nat>) {
    |sent| == |cfg.emits| && forall m :: 0 <= m < |sent| ==> sent[m] <= |cfg.emits[m]|
  }

  /** `all_data` holds, for each key, exactly the values emitted with it so far, each as often as it was emitted. */
  ghost predicate MapInv(cfg: Config, s: State) {
    Mapped(cfg, s.allData, s.sent)
  }

  ghost predicate Mapped(cfg: Config, all: seq<Record>, sent: seq<nat>) {
    SentOk(cfg, sent) && CKeys(all) && KeysKept(cfg.emits, sent, all)
  }

  ghost predicate KeysKept(emits: seq<seq<Record>>, sent: seq<nat>, all: seq<Record>)
    requires |sent| == |emits| && forall m :: 0 <= m < |emits| ==> sent[m] <= |emits[m]|
  {
    forall key :: ValuesOf(all, key) == SentValues(emits, sent, key)
  }

  lemma {:induction false} SentMore(emits: seq<seq<Record>>, sent: seq<nat>, m: nat, key: seq<byte>)
    requires |sent| == |emits| && forall i :: 0 <= i < |emits| ==> sent[i] <= |emits[i]|
    requires m < |emits| && sent[m] < |emits[m]|
    ensures SentValues(emits, sent[m := sent[m] + 1], key)
         == SentValues(emits, sent, key) + One(emits[m][sent[m]], key)
  {
    var n := |emits| - 1;
    var sent' := sent[m := sent[m] + 1];
    if m == n {
      assert sent'[..n] == sent[..n];
      assert emits[n][..sent[n] + 1] == emits[n][..sent[n]] + [emits[n][sent[n]]];
      ValuesSnoc(emits[n][..sent[n]], emits[n][sent[n]], key);
    } else {
      assert sent'[..n] == sent[..n][m := sent[..n][m] + 1];
      SentMore(emits[..n], sent[..n], m, key);
    }
  }

  lemma {:induction false} SentNone(emits: seq<seq<Record>>, sent: seq<nat>, key: seq<byte>)
    requires |sent| == |emits| && forall m :: 0 <= m < |emits| ==> sent[m] == 0
    ensures SentValues(emits, sent, key) == multiset{}
  {
    if emits == [] {
    } else {
      SentNone(emits[..|emits| - 1], sent[..|emits| - 1], key);
    }
  }

  lemma EmitKeepsMap(cfg: Config, all: seq<Record>, sent: seq<nat>, m: nat)
    requires ConfigOk(cfg) && Mapped(cfg, all, sent) && m < |cfg.emits| && sent[m] < |cfg.emits[m]|
    ensures Mapped(cfg, all + [cfg.emits[m][sent[m]]], sent[m := sent[m] + 1])
  {
    EmitKeepsShape(cfg, all, sent, m);
    EmitKeepsKeys(cfg.emits, all, sent, m);
  }

  lemma EmitKeepsKeys(emits: seq<seq<Record>>, all: seq<Record>, sent: seq<nat>, m: nat)
    requires |sent| == |emits| && forall i :: 0 <= i < |emits| ==> sent[i] <= |emits[i]|
    requires m < |emits| && sent[m] < |emits[m]| && KeysKept(emits, sent, all)
    ensures KeysKept(emits, sent[m := sent[m] + 1], all + [emits[m][sent[m]]])
  {
    var all', sent' := all + [emits[m][sent[m]]], sent[m := sent[m] + 1];
    forall key ensures ValuesOf(all', key) == SentValues(emits, sent', key) {
      EmitKeepsKey(emits, all, sent, m, key);
    }
  }

  lemma EmitKeepsShape(cfg: Config, all: seq<Record>, sent: seq<nat>, m: nat)
    requires ConfigOk(cfg) && CKeys(all) && SentOk(cfg, sent) && m < |cfg.emits| && sent[m] < |cfg.emits[m]|
    ensures CKeys(all + [cfg.emits[m][sent[m]]]) && SentOk(cfg, sent[m := sent[m] + 1])
  {
  }

  lemma EmitKeepsKey(emits: seq<seq<Record>>, all: seq<Record>, sent: seq<nat>, m: nat, key: seq<byte>)
    requires |sent| == |emits| && forall i :: 0 <= i < |emits| ==> sent[i] <= |emits[i]|
    requires m < |emits| && sent[m] < |emits[m]| && ValuesOf(all, key) == SentValues(emits, sent, key)
    ensures ValuesOf(all + [emits[m][sent[m]]], key) == SentValues(emits, sent[m := sent[m] + 1], key)
  {
    ValuesSnoc(all, emits[m][sent[m]], key);
    SentMore(emits, sent, m, key);
  }

  /** The step appends a record of mapper `step.m`. */
  predicate Appends(cfg: Config, s: State, step: Step) {
    && step.Emit? && !s.partitioned && step.m < |s.sent| && step.m < |cfg.emits|
    && s.sent[step.m] < |cfg.emits[step.m]|
  }

  /** The mapper of each record of `all_data`, as the run appended them. */
  function Owners(cfg: Config, steps: seq<Step>): seq<nat> {
    if steps == [] then []
    else
      var front, step := steps[..|steps| - 1], steps[|steps| - 1];
      if Appends(cfg, Exec(cfg, front), step) then Owners(cfg, front) + [step.m] else Owners(cfg, front)
  }

  /** The records of one mapper, in the order they stand in `all_data`. */
  function OfMapper(all: seq<Record>, owners: seq<nat>, m: nat): seq<Record>
    requires |owners| == |all|
  {
    if all == [] then []
    else
      var n := |all| - 1;
      OfMapper(all[..n], owners[..n], m) + if owners[n] == m then [all[n]] else []
  }

  ghost predicate Interleaved(cfg: Config, s: State, owners: seq<nat>) {
    && SentOk(cfg, s.sent) && |owners| == |s.allData|
    && (forall i :: 0 <= i < |owners| ==> owners[i] < |cfg.emits|)
    && forall m :: 0 <= m < |cfg.emits| ==> OfMapper(s.allData, owners, m) == cfg.emits[m][..s.sent[m]]
  }

  /** `all_data` is an interleaving of what the mappers have emitted: it consists of their emits, each mapper's in its
      own order. */
  lemma {:induction false} AllDataInterleaves(cfg: Config, steps: seq<Step>)
    requires ConfigOk(cfg)
    ensures Interleaved(cfg, Exec(cfg, steps), Owners(cfg, steps))
  {
    if steps == [] {
    } else {
      var front, step := steps[..|steps| - 1], steps[|steps| - 1];
      var s := Exec(cfg, front);
      AllDataInterleaves(cfg, front);
      if Appends(cfg, s, step) {
        EmitInterleaves(cfg, s, step.m, Owners(cfg, front));
      } else {
        OthersKeepData(cfg, s, step);
      }
    }
  }

  /** Once the mappers are joined it consists of all their emits. */
  lemma AllEmitsInterleaved(cfg: Config, steps: seq<Step>, m: nat)
    requires ConfigOk(cfg) && Exec(cfg, steps).partitioned && m < |cfg.emits|
    ensures |Owners(cfg, steps)| == |Exec(cfg, steps).allData|
    ensures OfMapper(Exec(cfg, steps).allData, Owners(cfg, steps), m) == cfg.emits[m]
    ensures forall i :: 0 <= i < |Owners(cfg, steps)| ==> Owners(cfg, steps)[i] < |cfg.emits|
  {
    RunInv(cfg, steps);
    AllDataInterleaves(cfg, steps);
    assert cfg.emits[m][..|cfg.emits[m]|] == cfg.emits[m];
  }

  lemma OthersKeepData(cfg: Config, s: State, step: Step)
    requires !Appends(cfg, s, step)
    ensures Next(cfg, s, step).allData == s.allData && Next(cfg, s, step).sent == s.sent
  {
    if step.Reduce? && step.p < |s.reducers| && step.p < |s.parts| && step.p < |s.partCount| {
      ReducerFrame(s, step.p);
    }
  }

  lemma EmitInterleaves(cfg: Config, s: State, m: nat, owners: seq<nat>)
    requires Interleaved(cfg, s, owners) && m < |cfg.emits| && s.sent[m] < |cfg.emits[m]|
    ensures Interleaved(
      cfg, s.(allData := s.allData + [cfg.emits[m][s.sent[m]]], sent := s.sent[m := s.sent[m] + 1]), owners + [m])
  {
    var all, r := s.allData, cfg.emits[m][s.sent[m]];
    forall q | 0 <= q < |cfg.emits|
      ensures OfMapper(all + [r], owners + [m], q) == cfg.emits[q][..if q == m then s.sent[m] + 1 else s.sent[q]]
    {
      assert (all + [r])[..|all|] == all && (owners + [m])[..|all|] == owners;
      assert cfg.emits[m][..s.sent[m] + 1] == cfg.emits[m][..s.sent[m]] + [r];
    }
  }

  // ---- the reducing phase

  /** The calls made in one partition so far. */
  function CallsIn(log: seq<Call>, p: nat): seq<Group> {
    if log == [] then []
    else
      var front, last := CallsIn(log[..|log| - 1], p), log[|log| - 1];
      if last.part == p then front + [last.group] else front
  }

  lemma CallsInSnoc(log: seq<Call>, c: Call, p: nat)
    ensures CallsIn(log + [c], p) == if c.part == p then CallsIn(log, p) + [c.group] else CallsIn(log, p)
  {
    assert (log + [c])[..|log|] == log;
  }

  /** The calls a reducer has yet to make. */
  function Remaining(r: Reducer, rest: seq<Record>): seq<Group> {
    match r
    case Test => Groups(rest)
    case Drain(key, values) => Draining(key, values, rest)
    case Done => []
  }

  /** Calls made and calls to come are together the calls of the whole partition. */
  ghost predicate PartInv(cfg: Config, s: State, p: nat)
    requires p < |s.parts| && p < |s.partCount| && p < |s.reducers|
  {
    && s.parts[p] == PartitionOf(s.allData, cfg.partition, p)
    && s.partCount[p] <= |s.parts[p]|
    && (s.reducers[p].Drain? ==> IsCString(s.reducers[p].key))
    && (s.reducers[p].Done? ==> s.partCount[p] == |s.parts[p]|)
    && Groups(s.parts[p]) == CallsIn(s.log, p) + Remaining(s.reducers[p], s.parts[p][s.partCount[p]..])
  }

  ghost predicate ReduceInv(cfg: Config, s: State) {
    if !s.partitioned then s.log == [] && s.reducers == []
    else
      && MappersDone(cfg, s)
      && |s.parts| == |s.partCount| == |s.reducers| == cfg.partitions
      && (forall c :: 0 <= c < |s.log| ==> s.log[c].part < cfg.partitions)
      && forall p :: 0 <= p < cfg.partitions ==> PartInv(cfg, s, p)
  }

  ghost predicate Inv(cfg: Config, s: State) {
    MapInv(cfg, s) && ReduceInv(cfg, s)
  }

  lemma StartReducing(cfg: Config, s: State)
    requires ConfigOk(cfg) && Inv(cfg, s) && !s.partitioned && MappersDone(cfg, s)
    ensures ReduceInv(cfg, Next(cfg, s, MainStep))
  {
    var t := Next(cfg, s, MainStep);
    forall p | 0 <= p < cfg.partitions ensures PartInv(cfg, t, p) {
      assert t.parts[p][0..] == t.parts[p];
      assert [] + Groups(t.parts[p]) == Groups(t.parts[p]);
    }
  }

  /** One reducer's step, seen from its own partition. */
  lemma ReducerKeepsOwn(cfg: Config, s: State, p: nat)
    requires p < |s.parts| && p < |s.partCount| && p < |s.reducers| && PartInv(cfg, s, p) && CKeys(s.allData)
    ensures PartInv(cfg, ReducerNext(s, p), p)
  {
    var rest := s.parts[p][s.partCount[p]..];
    PartitionSorted(s.allData, cfg.partition, p);
    if s.reducers[p].Drain? {
      DrainKeepsOwn(cfg, s, p);
    } else if s.reducers[p].Test? && rest != [] {
      DrainStart(rest);
    }
  }

  lemma DrainKeepsOwn(cfg: Config, s: State, p: nat)
    requires p < |s.parts| && p < |s.partCount| && p < |s.reducers| && PartInv(cfg, s, p) && CKeys(s.parts[p])
    requires s.reducers[p].Drain?
    ensures PartInv(cfg, ReducerNext(s, p), p)
  {
    if s.partCount[p] < |s.parts[p]| {
      CompareEqual(s.parts[p][s.partCount[p]].key, s.reducers[p].key);
    }
    if s.partCount[p] < |s.parts[p]| && s.parts[p][s.partCount[p]].key == s.reducers[p].key {
      DrainTakes(cfg, s, p);
    } else {
      DrainStops(cfg, s, p);
    }
  }

  lemma DrainTakes(cfg: Config, s: State, p: nat)
    requires p < |s.parts| && p < |s.partCount| && p < |s.reducers| && PartInv(cfg, s, p) && s.reducers[p].Drain?
    requires s.partCount[p] < |s.parts[p]| && s.parts[p][s.partCount[p]].key == s.reducers[p].key
    requires StrCmp(s.parts[p][s.partCount[p]].key, s.reducers[p].key) == 0
    ensures PartInv(cfg, ReducerNext(s, p), p)
  {
    var rest := s.parts[p][s.partCount[p]..];
    DrainNext(s.reducers[p].key, s.reducers[p].values, rest);
    assert rest[1..] == s.parts[p][s.partCount[p] + 1..];
  }

  lemma DrainStops(cfg: Config, s: State, p: nat)
    requires p < |s.parts| && p < |s.partCount| && p < |s.reducers| && PartInv(cfg, s, p) && s.reducers[p].Drain?
    requires s.partCount[p] < |s.parts[p]| ==>
      s.parts[p][s.partCount[p]].key != s.reducers[p].key
      && StrCmp(s.parts[p][s.partCount[p]].key, s.reducers[p].key) != 0
    ensures PartInv(cfg, ReducerNext(s, p), p)
  {
    var rest := s.parts[p][s.partCount[p]..];
    var g := Group(s.reducers[p].key, s.reducers[p].values);
    DrainEnd(g.key, g.values, rest);
    CallsInSnoc(s.log, Call(p, g), p);
    Assoc(CallsIn(s.log, p), [g], Groups(rest));
  }

  /** ... and from another partition: reducers on different partitions do not disturb each other. */
  lemma ReducerKeepsOther(cfg: Config, s: State, p: nat, q: nat)
    requires p < |s.parts| && p < |s.partCount| && p < |s.reducers| && p != q
    requires q < |s.parts| && q < |s.partCount| && q < |s.reducers| && PartInv(cfg, s, q)
    ensures PartInv(cfg, ReducerNext(s, p), q)
  {
    ReducerFrame(s, p);
    var t := ReducerNext(s, p);
    if t.log != s.log {
      assert t.log == s.log + [t.log[|s.log|]];
      CallsInSnoc(s.log, t.log[|s.log|], q);
    }
    PartSame(cfg, s, t, q);
  }

  /** What a step of reducer `p` does depends on its own partition only: its new cursor, its new place in the code, and
      the call it finishes, if any. */
  function Effect(part: seq<Record>, at: nat, r: Reducer, p: nat): (nat, Reducer, seq<Call>) {
    match r
    case Test => (at, if at < |part| then Drain(part[at].key, []) else Done, [])
    case Drain(key, values) =>
      if at < |part| && StrCmp(part[at].key, key) == 0 then (at + 1, Drain(key, values + [part[at].value]), [])
      else (at, Test, [Call(p, Group(key, values))])
    case Done => (at, Done, [])
  }

  lemma ReducerEffect(s: State, p: nat)
    requires p < |s.parts| && p < |s.partCount| && p < |s.reducers|
    ensures var e := Effect(s.parts[p], s.partCount[p], s.reducers[p], p);
      ReducerNext(s, p) ==
        s.(partCount := s.partCount[p := e.0], reducers := s.reducers[p := e.1], log := s.log + e.2)
  {
    assert s.partCount[p := s.partCount[p]] == s.partCount;
    assert s.reducers[p := s.reducers[p]] == s.reducers;
    assert s.log + [] == s.log;
  }

  /** Steps of reducers on different partitions commute: the order shows only in how the calls of the two partitions
      interleave in the log. */
  lemma ReducersCommute(s: State, p: nat, q: nat, r: nat)
    requires p < |s.parts| && p < |s.partCount| && p < |s.reducers|
    requires q < |s.parts| && q < |s.partCount| && q < |s.reducers| && p != q
    ensures var a, b := ReducerNext(ReducerNext(s, p), q), ReducerNext(ReducerNext(s, q), p);
      && a == b.(log := a.log)
      && CallsIn(a.log, r) == CallsIn(b.log, r)
  {
    ReducerEffect(s, p);
    ReducerEffect(s, q);
    ReducerEffect(ReducerNext(s, p), q);
    ReducerEffect(ReducerNext(s, q), p);
    var e := Effect(s.parts[p], s.partCount[p], s.reducers[p], p);
    var f := Effect(s.parts[q], s.partCount[q], s.reducers[q], q);
    assert s.partCount[p := e.0][q := f.0] == s.partCount[q := f.0][p := e.0];
    assert s.reducers[p := e.1][q := f.1] == s.reducers[q := f.1][p := e.1];
    CallsInterleave(s.log, e.2, f.2, r);
  }

  lemma CallsInterleave(log: seq<Call>, x: seq<Call>, y: seq<Call>, r: nat)
    requires |x| <= 1 && |y| <= 1 && (x != [] && y != [] ==> x[0].part != y[0].part)
    ensures CallsIn(log + x + y, r) == CallsIn(log + y + x, r)
  {
    if x == [] || y == [] {
      assert log + x + y == log + y + x;
    } else {
      assert log + x + y == (log + [x[0]]) + [y[0]] && log + y + x == (log + [y[0]]) + [x[0]];
      CallsInSnoc(log, x[0], r);
      CallsInSnoc(log + [x[0]], y[0], r);
      CallsInSnoc(log, y[0], r);
      CallsInSnoc(log + [y[0]], x[0], r);
    }
  }

  lemma PartSame(cfg: Config, s: State, t: State, q: nat)
    requires q < |s.parts| && q < |s.partCount| && q < |s.reducers| && PartInv(cfg, s, q)
    requires t.parts == s.parts && q < |t.partCount| && q < |t.reducers| && t.allData == s.allData
    requires t.partCount[q] == s.partCount[q] && t.reducers[q] == s.reducers[q]
    requires CallsIn(t.log, q) == CallsIn(s.log, q)
    ensures PartInv(cfg, t, q)
  {
  }

  lemma ReduceKeeps(cfg: Config, s: State, p: nat)
    requires Inv(cfg, s) && p < |s.parts| && p < |s.partCount| && p < |s.reducers|
    ensures Inv(cfg, ReducerNext(s, p))
  {
    ReducerFrame(s, p);
    if s.partitioned {
      forall q | 0 <= q < cfg.partitions ensures PartInv(cfg, ReducerNext(s, p), q) {
        if q == p {
          ReducerKeepsOwn(cfg, s, p);
        } else {
          ReducerKeepsOther(cfg, s, p, q);
        }
      }
    }
  }

  lemma ReducerFrame(s: State, p: nat)
    requires p < |s.parts| && p < |s.partCount| && p < |s.reducers|
    ensures var t := ReducerNext(s, p);
      && t.allData == s.allData && t.sent == s.sent && t.partitioned == s.partitioned && t.parts == s.parts
      && |t.partCount| == |s.partCount| && |t.reducers| == |s.reducers|
      && (forall q :: 0 <= q < |s.partCount| && q != p ==> t.partCount[q] == s.partCount[q])
      && (forall q :: 0 <= q < |s.reducers| && q != p ==> t.reducers[q] == s.reducers[q])
      && (t.log == s.log || (|t.log| == |s.log| + 1 && t.log[..|s.log|] == s.log && t.log[|s.log|].part == p))
  {
  }

  lemma InitInv(cfg: Config)
    requires ConfigOk(cfg)
    ensures Inv(cfg, Init(cfg))
  {
    forall key ensures SentValues(cfg.emits, Init(cfg).sent, key) == multiset{} {
      SentNone(cfg.emits, Init(cfg).sent, key);
    }
  }

  lemma EmitStepInv(cfg: Config, s: State, m: nat)
    requires ConfigOk(cfg) && Inv(cfg, s) && Appends(cfg, s, Emit(m))
    ensures Inv(cfg, Next(cfg, s, Emit(m)))
  {
    EmitMaps(cfg, s, m);
    EmitNotReducing(cfg, s, m);
  }

  lemma EmitMaps(cfg: Config, s: State, m: nat)
    requires ConfigOk(cfg) && MapInv(cfg, s) && Appends(cfg, s, Emit(m))
    ensures MapInv(cfg, Next(cfg, s, Emit(m)))
  {
    EmitNext(cfg, s, m);
    EmitKeepsMap(cfg, s.allData, s.sent, m);
  }

  lemma EmitNext(cfg: Config, s: State, m: nat)
    requires Appends(cfg, s, Emit(m))
    ensures var t := Next(cfg, s, Emit(m));
      && t.allData == s.allData + [cfg.emits[m][s.sent[m]]] && t.sent == s.sent[m := s.sent[m] + 1]
  {
  }

  lemma EmitNotReducing(cfg: Config, s: State, m: nat)
    requires ReduceInv(cfg, s) && Appends(cfg, s, Emit(m))
    ensures ReduceInv(cfg, Next(cfg, s, Emit(m)))
  {
  }

  lemma MainStepInv(cfg: Config, s: State)
    requires ConfigOk(cfg) && Inv(cfg, s) && !s.partitioned && MappersDone(cfg, s)
    ensures Inv(cfg, Next(cfg, s, MainStep))
  {
    StartReducing(cfg, s);
  }

  lemma StepInv(cfg: Config, s: State, step: Step)
    requires ConfigOk(cfg) && Inv(cfg, s)
    ensures Inv(cfg, Next(cfg, s, step))
  {
    match step
    case Emit(m) =>
      if Appends(cfg, s, step) {
        EmitStepInv(cfg, s, m);
      } else {
        assert Next(cfg, s, step) == s;
      }
    case MainStep =>
      if !s.partitioned && MappersDone(cfg, s) {
        MainStepInv(cfg, s);
      } else {
        assert Next(cfg, s, step) == s;
      }
    case Reduce(p) =>
      if p < |s.reducers| && p < |s.parts| && p < |s.partCount| {
        ReduceKeeps(cfg, s, p);
      } else {
        assert Next(cfg, s, step) == s;
      }
  }

  lemma {:induction false} RunInv(cfg: Config, steps: seq<Step>)
    requires ConfigOk(cfg)
    ensures Inv(cfg, Exec(cfg, steps))
  {
    if steps == [] {
      InitInv(cfg);
    } else {
      RunInv(cfg, steps[..|steps| - 1]);
      StepInv(cfg, Exec(cfg, steps[..|steps| - 1]), steps[|steps| - 1]);
    }
  }

  // ---- what holds of every complete run

  /** The main thread has joined all reducers. */
  ghost predicate Finished(cfg: Config, s: State) {
    s.partitioned && forall p :: 0 <= p < |s.reducers| ==> s.reducers[p].Done?
  }

  /** The calls of the run that are for one key, in the order they finished. */
  function CallsForKey(log: seq<Call>, key: seq<byte>): seq<Call> {
    if log == [] then []
    else
      var front, last := CallsForKey(log[..|log| - 1], key), log[|log| - 1];
      if last.group.key == key then front + [last] else front
  }

  /** Each reducer has made exactly the calls of its partition, in strictly increasing order of key. */
  lemma PartitionReduced(cfg: Config, steps: seq<Step>, p: nat)
    requires ConfigOk(cfg) && Finished(cfg, Exec(cfg, steps)) && p < cfg.partitions
    ensures var s := Exec(cfg, steps);
      && CallsIn(s.log, p) == Groups(PartitionOf(s.allData, cfg.partition, p))
      && Increasing(CallsIn(s.log, p))
  {
    var s := Exec(cfg, steps);
    RunInv(cfg, steps);
    assert PartInv(cfg, s, p);
    PartitionSorted(s.allData, cfg.partition, p);
    GroupsIncrease(s.parts[p]);
  }

  lemma {:induction false} CallsForSnoc(gs: seq<Group>, g: Group, key: seq<byte>)
    ensures CallsFor(gs + [g], key) == if g.key == key then CallsFor(gs, key) + [g] else CallsFor(gs, key)
  {
    if gs == [] {
      assert gs + [g] == [g];
    } else {
      assert gs + [g] == [gs[0]] + (gs[1..] + [g]);
      CallsForHead(gs[0], gs[1..] + [g], key);
      CallsForSnoc(gs[1..], g, key);
      Assoc(if gs[0].key == key then [gs[0]] else [], CallsFor(gs[1..], key), [g]);
    }
  }

  function Tagged(p: nat, gs: seq<Group>): (r: seq<Call>)
    ensures |r| == |gs| && forall i :: 0 <= i < |gs| ==> r[i] == Call(p, gs[i])
  {
    seq(|gs|, i requires 0 <= i < |gs| => Call(p, gs[i]))
  }

  lemma LastCall(log: seq<Call>, key: seq<byte>)
    requires log != []
    ensures log[|log| - 1].group.key == key ==> CallsFor(CallsIn(log, log[|log| - 1].part), key) != []
  {
    var front, last := log[..|log| - 1], log[|log| - 1];
    CallsForSnoc(CallsIn(front, last.part), last.group, key);
  }

  /** When no partition but `p` has calls for the key, all its calls are partition `p`'s. */
  lemma {:induction false} OnlyIn(log: seq<Call>, p: nat, key: seq<byte>)
    requires forall q: nat :: q != p ==> CallsFor(CallsIn(log, q), key) == []
    ensures CallsForKey(log, key) == Tagged(p, CallsFor(CallsIn(log, p), key))
  {
    if log == [] {
    } else {
      var front, last := log[..|log| - 1], log[|log| - 1];
      assert log == front + [last];
      forall q: nat | q != p ensures CallsFor(CallsIn(front, q), key) == [] {
        CallsInSnoc(front, last, q);
        CallsForSnoc(CallsIn(front, q), last.group, key);
      }
      OnlyIn(front, p, key);
      LastCall(log, key);
      CallsInSnoc(front, last, p);
      CallsForSnoc(CallsIn(front, p), last.group, key);
      if last.group.key == key {
        assert CallsForKey(log, key) == Tagged(p, CallsFor(CallsIn(front, p), key) + [last.group]);
      } else {
        assert CallsForKey(log, key) == Tagged(p, CallsFor(CallsIn(front, p), key));
      }
    }
  }

  lemma {:induction false} NoCallsElsewhere(log: seq<Call>, n: nat, p: nat)
    requires p >= n && forall c :: 0 <= c < |log| ==> log[c].part < n
    ensures CallsIn(log, p) == []
  {
    if log == [] {
    } else {
      NoCallsElsewhere(log[..|log| - 1], n, p);
    }
  }

  lemma NoValues(values: seq<seq<byte>>)
    ensures multiset(values) == multiset{} <==> values == []
  {
    if values != [] {
      assert values[0] in multiset(values);
    }
  }

  /** The values emitted with a key, over all mappers. */
  function EmittedValues(emits: seq<seq<Record>>, key: seq<byte>): multiset<seq<byte>> {
    if emits == [] then multiset{}
    else EmittedValues(emits[..|emits| - 1], key) + ValuesOf(emits[|emits| - 1], key)
  }

  lemma {:induction false} AllSent(emits: seq<seq<Record>>, sent: seq<nat>, key: seq<byte>)
    requires |sent| == |emits| && forall m :: 0 <= m < |emits| ==> sent[m] == |emits[m]|
    ensures SentValues(emits, sent, key) == EmittedValues(emits, key)
  {
    if emits == [] {
    } else {
      var n := |emits| - 1;
      AllSent(emits[..n], sent[..n], key);
      assert emits[n][..sent[n]] == emits[n];
    }
  }

  /** After the mapping phase the values in `all_data` for a key are those emitted with it: none lost, none changed. */
  lemma AllEmitsKept(cfg: Config, steps: seq<Step>, key: seq<byte>)
    requires ConfigOk(cfg) && Exec(cfg, steps).partitioned
    ensures ValuesOf(Exec(cfg, steps).allData, key) == EmittedValues(cfg.emits, key)
  {
    RunInv(cfg, steps);
    AllSent(cfg.emits, Exec(cfg, steps).sent, key);
  }

  /** For every interleaving: each key that was emitted is passed to `Reduce` exactly once over all partitions, with
      exactly the values the mappers emitted for it, each as often as it was emitted, in the order of `all_data`; a key
      that was not emitted, never. */
  lemma EachKeyReducedOnce(cfg: Config, steps: seq<Step>, key: seq<byte>)
    requires ConfigOk(cfg) && Finished(cfg, Exec(cfg, steps))
    ensures var s, calls := Exec(cfg, steps), CallsForKey(Exec(cfg, steps).log, key);
      var values := Values(Select(s.allData, key));
      && calls == (if EmittedValues(cfg.emits, key) == multiset{} then []
                   else [Call(cfg.partition(key), Group(key, values))])
      && multiset(values) == EmittedValues(cfg.emits, key)
  {
    var s := Exec(cfg, steps);
    RunInv(cfg, steps);
    forall q: nat ensures CallsFor(CallsIn(s.log, q), key)
        == if q == cfg.partition(key) && Select(s.allData, key) != []
           then [Group(key, Values(Select(s.allData, key)))] else []
    {
      if q < cfg.partitions {
        PartitionReduced(cfg, steps, q);
        PartitionSorted(s.allData, cfg.partition, q);
        PartitionSelects(s.allData, cfg.partition, q, key);
        GroupsOnce(PartitionOf(s.allData, cfg.partition, q), key);
      } else {
        NoCallsElsewhere(s.log, cfg.partitions, q);
      }
    }
    OnlyIn(s.log, cfg.partition(key), key);
    AllEmitsKept(cfg, steps, key);
    NoValues(Values(Select(s.allData, key)));
  }

  // ---- word count

  /** The records `Map` emits for a list of tokens, each with the value "1". */
  function WordRecords(words: seq<seq<byte>>): (r: seq<Record>)
    ensures |r| == |words| && forall i :: 0 <= i < |words| ==> r[i] == Record(words[i], [49])
  {
    seq(|words|, i requires 0 <= i < |words| => Record(words[i], [49]))
  }

  /** One mapper for each file, as `wordcount` starts them. */
  function WordCountConfig(files: seq<seq<byte>>, partitions: nat, partition: Partitioner): (cfg: Config)
    ensures |cfg.emits| == |files|
    ensures forall m :: 0 <= m < |files| ==> cfg.emits[m] == WordRecords(WordCount.Tokens(files[m]))
  {
    Config(seq(|files|, m requires 0 <= m < |files| => WordRecords(WordCount.Tokens(files[m]))), partitions, partition)
  }

  /** The true number of occurrences of a word in the files. */
  function Occurrences(files: seq<seq<byte>>, word: seq<byte>): nat {
    if files == [] then 0
    else Occurrences(files[..|files| - 1], word) + multiset(WordCount.Words(files[|files| - 1]))[word]
  }

  lemma {:induction false} SelectCounts(words: seq<seq<byte>>, word: seq<byte>)
    ensures |Select(WordRecords(words), word)| == multiset(words)[word]
  {
    if words == [] {
    } else {
      var front, last := words[..|words| - 1], words[|words| - 1];
      SelectCounts(front, word);
      assert words == front + [last];
      assert WordRecords(words)[..|words| - 1] == WordRecords(front);
    }
  }

  lemma {:induction false} EmitsAreOccurrences(files: seq<seq<byte>>, partitions: nat, partition: Partitioner,
                                               word: seq<byte>)
    requires forall m :: 0 <= m < |files| ==> WordCount.NUL !in files[m]
    ensures |EmittedValues(WordCountConfig(files, partitions, partition).emits, word)| == Occurrences(files, word)
  {
    if files == [] {
    } else {
      var n := |files| - 1;
      var emits := WordCountConfig(files, partitions, partition).emits;
      EmitsAreOccurrences(files[..n], partitions, partition, word);
      assert emits[..n] == WordCountConfig(files[..n], partitions, partition).emits;
      WordCount.TokensExactly(files[n]);
      SelectCounts(WordCount.Words(files[n]), word);
    }
  }

  lemma WordCountConfigOk(files: seq<seq<byte>>, partitions: nat, partition: Partitioner)
    requires forall key :: partition(key) < partitions
    ensures ConfigOk(WordCountConfig(files, partitions, partition))
  {
    forall m | 0 <= m < |files| ensures CKeys(WordRecords(WordCount.Tokens(files[m]))) {
      var tokens := WordCount.Tokens(files[m]);
      WordCount.TokensHaveNoNul(files[m]);
      forall i | 0 <= i < |tokens| ensures IsCString(tokens[i]) {
        assert tokens[i] in tokens;
        assert forall k :: 0 <= k < |tokens[i]| ==> tokens[i][k] in tokens[i];
      }
    }
  }

  /** What `Reduce` has printed for a word. */
  function LinesFor(log: seq<Call>, word: seq<byte>): (r: seq<WordCount.Line>) {
    var calls := CallsForKey(log, word);
    seq(|calls|, i requires 0 <= i < |calls| => WordCount.PrintedFor(calls[i].group))
  }

  /** The word count is right for every interleaving of mappers and reducers: each word that occurs in the files is
      printed exactly once, with its true number of occurrences, and nothing else is printed. */
  lemma WordCountCorrect(files: seq<seq<byte>>, partitions: nat, partition: Partitioner, steps: seq<Step>,
                         word: seq<byte>)
    requires forall key :: partition(key) < partitions
    requires forall m :: 0 <= m < |files| ==> WordCount.NUL !in files[m]
    requires Finished(WordCountConfig(files, partitions, partition),
                      Exec(WordCountConfig(files, partitions, partition), steps))
    ensures var s := Exec(WordCountConfig(files, partitions, partition), steps);
      var n := Occurrences(files, word);
      LinesFor(s.log, word) == if n == 0 then [] else [WordCount.Line(word, n)]
  {
    var cfg := WordCountConfig(files, partitions, partition);
    WordCountConfigOk(files, partitions, partition);
    EachKeyReducedOnce(cfg, steps, word);
    AllEmitsKept(cfg, steps, word);
    EmitsAreOccurrences(files, partitions, partition, word);
  }
}
