/** concurrency-mapreduce/mapreduce.c: the sorting insertion, the partition loop, the reduce calls a partition asks for,
    and the default partitioner. */
module MapReduce {
  import opened Rle
  import opened CString

  /** `map_data`, without the partition number computed from the key. */
  datatype Record = Record(key: seq<byte>, value: seq<byte>)

  ghost predicate CKeys(s: seq<Record>) {
    forall i :: 0 <= i < |s| ==> IsCString(s[i].key)
  }

  ghost predicate Sorted(s: seq<Record>) {
    forall i, j :: 0 <= i < j < |s| ==> StrCmp(s[i].key, s[j].key) <= 0
  }

  /** Where `MR_Sortadd` puts a record: it moves down past records with a larger key and stops at the first that is
      not larger. */
  function InsertSorted(s: seq<Record>, r: Record): (t: seq<Record>)
    ensures |t| == |s| + 1
  {
    if s == [] || StrCmp(r.key, s[|s| - 1].key) >= 0 then s + [r]
    else InsertSorted(s[..|s| - 1], r) + [s[|s| - 1]]
  }

  /** `MR_Sortadd`, by swaps in place. */
  method SortAdd(partList: array<Record>, newData: Record, indexNum: nat)
    requires indexNum < partList.Length
    modifies partList
    ensures partList[..indexNum + 1] == InsertSorted(old(partList[..indexNum]), newData)
    ensures forall k :: indexNum < k < partList.Length ==> partList[k] == old(partList[k])
  {
    ghost var s := partList[..indexNum];
    partList[indexNum] := newData;
    ghost var i := MoveDown(partList, newData, indexNum, s);
    InsertHere(s, i, newData, partList[..indexNum + 1]);
  }

  /** The loop: swap the new record towards the front while the record before it is larger. */
  method MoveDown(partList: array<Record>, newData: Record, indexNum: nat, ghost s: seq<Record>) returns (i: nat)
    requires indexNum < partList.Length && |s| == indexNum
    requires partList[indexNum] == newData && forall k :: 0 <= k < indexNum ==> partList[k] == s[k]
    modifies partList
    ensures i <= indexNum && partList[i] == newData
    ensures forall k :: 0 <= k < i ==> partList[k] == s[k]
    ensures forall k :: i < k <= indexNum ==> partList[k] == s[k - 1]
    ensures forall k :: i <= k < indexNum ==> StrCmp(newData.key, s[k].key) < 0
    ensures i == 0 || StrCmp(newData.key, s[i - 1].key) >= 0
    ensures forall k :: indexNum < k < partList.Length ==> partList[k] == old(partList[k])
  {
    i := indexNum;
    while i > 0
      invariant i <= indexNum && partList[i] == newData
      invariant forall k :: 0 <= k < i ==> partList[k] == s[k]
      invariant forall k :: i < k <= indexNum ==> partList[k] == s[k - 1]
      invariant forall k :: i <= k < indexNum ==> StrCmp(newData.key, s[k].key) < 0
      invariant forall k :: indexNum < k < partList.Length ==> partList[k] == old(partList[k])
    {
      var ret := StrCmp(partList[i].key, partList[i - 1].key);
      if ret < 0 {
        var temp := partList[i];
        partList[i] := partList[i - 1];
        partList[i - 1] := temp;
      } else {
        break;
      }
      i := i - 1;
    }
  }

  lemma {:induction false} InsertHere(s: seq<Record>, i: nat, r: Record, t: seq<Record>)
    requires i <= |s| && |t| == |s| + 1 && t[i] == r
    requires forall k :: 0 <= k < i ==> t[k] == s[k]
    requires forall k :: i < k <= |s| ==> t[k] == s[k - 1]
    requires forall k :: i <= k < |s| ==> StrCmp(r.key, s[k].key) < 0
    requires i == 0 || StrCmp(r.key, s[i - 1].key) >= 0
    ensures t == InsertSorted(s, r)
  {
    if i < |s| {
      InsertHere(s[..|s| - 1], i, r, t[..|s|]);
      assert t == t[..|s|] + [t[|s|]];
    }
  }

  // ---- what the insertion means

  /** The records with a given key, in order. */
  function Select(s: seq<Record>, key: seq<byte>): seq<Record> {
    if s == [] then []
    else
      var front, last := Select(s[..|s| - 1], key), s[|s| - 1];
      if last.key == key then front + [last] else front
  }

  lemma SelectSnoc(s: seq<Record>, r: Record, key: seq<byte>)
    ensures Select(s + [r], key) == if r.key == key then Select(s, key) + [r] else Select(s, key)
  {
    assert (s + [r])[..|s|] == s;
  }

  lemma SortedSnoc(s: seq<Record>, r: Record)
    requires Sorted(s) && forall i :: 0 <= i < |s| ==> StrCmp(s[i].key, r.key) <= 0
    ensures Sorted(s + [r])
  {
  }

  lemma LastIsLargest(s: seq<Record>, r: Record, i: nat)
    requires Sorted(s) && CKeys(s) && IsCString(r.key) && i < |s| && StrCmp(r.key, s[|s| - 1].key) >= 0
    ensures StrCmp(s[i].key, r.key) <= 0
  {
    CompareSwapped(r.key, s[|s| - 1].key);
    if i < |s| - 1 {
      CompareTransitive(s[i].key, s[|s| - 1].key, r.key);
    }
  }

  /** A sorted list stays sorted. */
  lemma {:induction false} InsertKeepsSorted(s: seq<Record>, r: Record)
    requires Sorted(s) && CKeys(s) && IsCString(r.key)
    ensures Sorted(InsertSorted(s, r)) && CKeys(InsertSorted(s, r))
    ensures forall x :: x in InsertSorted(s, r) <==> x == r || x in s
  {
    if s == [] {
    } else {
      var front, last := s[..|s| - 1], s[|s| - 1];
      SnocEta(s);
      if StrCmp(r.key, last.key) >= 0 {
        forall i | 0 <= i < |s| ensures StrCmp(s[i].key, r.key) <= 0 {
          LastIsLargest(s, r, i);
        }
        SortedSnoc(s, r);
      } else {
        InsertKeepsSorted(front, r);
        var t := InsertSorted(front, r);
        forall i | 0 <= i < |t| ensures StrCmp(t[i].key, last.key) <= 0 {
          assert t[i] in t;
        }
        SortedSnoc(t, last);
      }
    }
  }

  /** The insertion is stable: the new record goes after all records with its key, the others keep their order. */
  lemma {:induction false} InsertStable(s: seq<Record>, r: Record, key: seq<byte>)
    requires IsCString(r.key) && CKeys(s)
    ensures Select(InsertSorted(s, r), key) == if r.key == key then Select(s, key) + [r] else Select(s, key)
  {
    if s == [] || StrCmp(r.key, s[|s| - 1].key) >= 0 {
      SelectSnoc(s, r, key);
    } else {
      var front, last := s[..|s| - 1], s[|s| - 1];
      InsertStable(front, r, key);
      SelectSnoc(InsertSorted(front, r), last, key);
      CompareEqual(r.key, last.key);
    }
  }

  // ---- the partition loop

  /** A partitioner, already applied to the number of partitions. */
  type Partitioner = seq<byte> -> nat

  /** What the partition loop leaves in partition `p`. */
  function PartitionOf(all: seq<Record>, partition: Partitioner, p: nat): seq<Record> {
    if all == [] then []
    else
      var front, last := PartitionOf(all[..|all| - 1], partition, p), all[|all| - 1];
      if partition(last.key) == p then InsertSorted(front, last) else front
  }

  lemma PartitionSnoc(all: seq<Record>, i: nat, partition: Partitioner, p: nat)
    requires i < |all|
    ensures PartitionOf(all[..i + 1], partition, p)
         == if partition(all[i].key) == p then InsertSorted(PartitionOf(all[..i], partition, p), all[i])
            else PartitionOf(all[..i], partition, p)
  {
    assert all[..i + 1][..i] == all[..i];
  }

  lemma {:induction false} PartitionGrows(all: seq<Record>, i: nat, partition: Partitioner, p: nat)
    requires i <= |all|
    ensures |PartitionOf(all[..i], partition, p)| <= |PartitionOf(all, partition, p)|
    decreases |all|
  {
    if i == |all| {
      assert all[..i] == all;
    } else {
      assert all[..|all| - 1][..i] == all[..i];
      PartitionGrows(all[..|all| - 1], i, partition, p);
    }
  }

  /** The partition loop of `MR_Run`: each record goes through the partitioner into its partition's array. */
  method PartitionAll(allData: seq<Record>, partition: Partitioner, partData: seq<array<Record>>, partNum: array<nat>)
    requires |partData| == partNum.Length
    requires forall p :: 0 <= p < |partData| ==> partNum[p] == 0
    requires forall r :: r in allData ==> partition(r.key) < |partData|
    requires forall p :: 0 <= p < |partData| ==> |PartitionOf(allData, partition, p)| <= partData[p].Length
    requires forall p, q :: 0 <= p < q < |partData| ==> partData[p] != partData[q]
    modifies partData, partNum
    ensures forall p :: 0 <= p < |partData| ==>
      partNum[p] <= partData[p].Length && partData[p][..partNum[p]] == PartitionOf(allData, partition, p)
  {
    for i := 0 to |allData|
      invariant forall p :: 0 <= p < |partData| ==>
        partNum[p] <= partData[p].Length && partData[p][..partNum[p]] == PartitionOf(allData[..i], partition, p)
    {
      forall p | 0 <= p < |partData|
        ensures PartitionOf(allData[..i + 1], partition, p)
             == if partition(allData[i].key) == p then InsertSorted(PartitionOf(allData[..i], partition, p), allData[i])
                else PartitionOf(allData[..i], partition, p)
      {
        PartitionSnoc(allData, i, partition, p);
      }
      var partIndex := partition(allData[i].key);
      PartitionGrows(allData, i + 1, partition, partIndex);
      SortAdd(partData[partIndex], allData[i], partNum[partIndex]);
      partNum[partIndex] := partNum[partIndex] + 1;
    }
    assert allData[..|allData|] == allData;
  }

  /** Every partition is sorted by key. */
  lemma {:induction false} PartitionSorted(all: seq<Record>, partition: Partitioner, p: nat)
    requires CKeys(all)
    ensures Sorted(PartitionOf(all, partition, p)) && CKeys(PartitionOf(all, partition, p))
  {
    if all == [] {
    } else {
      PartitionSorted(all[..|all| - 1], partition, p);
      InsertKeepsSorted(PartitionOf(all[..|all| - 1], partition, p), all[|all| - 1]);
    }
  }

  /** The records of a key are all in the key's partition, in the order of `all_data`, and in no other partition. */
  lemma {:induction false} PartitionSelects(all: seq<Record>, partition: Partitioner, p: nat, key: seq<byte>)
    requires CKeys(all)
    ensures Select(PartitionOf(all, partition, p), key) == if partition(key) == p then Select(all, key) else []
  {
    if all == [] {
    } else {
      var front := all[..|all| - 1];
      PartitionSelects(front, partition, p, key);
      PartitionSorted(front, partition, p);
      InsertStable(PartitionOf(front, partition, p), all[|all| - 1], key);
    }
  }

  /** The records hashed to a partition, in order. */
  function HashedTo(all: seq<Record>, partition: Partitioner, p: nat): seq<Record> {
    if all == [] then []
    else
      var front, last := HashedTo(all[..|all| - 1], partition, p), all[|all| - 1];
      if partition(last.key) == p then front + [last] else front
  }

  lemma {:induction false} InsertAdds(s: seq<Record>, r: Record)
    ensures multiset(InsertSorted(s, r)) == multiset(s) + multiset{r}
  {
    if s == [] {
    } else {
      InsertAdds(s[..|s| - 1], r);
      SnocEta(s);
    }
  }

  /** A partition is a permutation of exactly the records hashed to it. */
  lemma {:induction false} PartitionPermutes(all: seq<Record>, partition: Partitioner, p: nat)
    ensures multiset(PartitionOf(all, partition, p)) == multiset(HashedTo(all, partition, p))
  {
    if all == [] {
    } else {
      var front, last := all[..|all| - 1], all[|all| - 1];
      PartitionPermutes(front, partition, p);
      InsertAdds(PartitionOf(front, partition, p), last);
    }
  }

  // ---- draining a partition

  /** One call of the reducer: a key and the values `get_next` handed out for it. */
  datatype Group = Group(key: seq<byte>, values: seq<seq<byte>>)

  /** How many records at the front have the key. */
  function Lead(s: seq<Record>, key: seq<byte>): (n: nat)
    ensures n <= |s|
    ensures forall i :: 0 <= i < n ==> s[i].key == key
    ensures n < |s| ==> s[n].key != key
    ensures s != [] && s[0].key == key ==> n > 0
  {
    if s == [] || s[0].key != key then 0 else 1 + Lead(s[1..], key)
  }

  function Values(s: seq<Record>): (v: seq<seq<byte>>)
    ensures |v| == |s| && forall i :: 0 <= i < |s| ==> v[i] == s[i].value
  {
    seq(|s|, i requires 0 <= i < |s| => s[i].value)
  }

  /** The reducer calls for a partition: one for each stretch of equal keys. */
  function Groups(s: seq<Record>): seq<Group> {
    if s == [] then []
    else
      var n := Lead(s, s[0].key);
      [Group(s[0].key, Values(s[..n]))] + Groups(s[n..])
  }

  /** The reducer calls still to come when the current one has been given `values` so far. */
  function Draining(key: seq<byte>, values: seq<seq<byte>>, s: seq<Record>): seq<Group> {
    var n := Lead(s, key);
    [Group(key, values + Values(s[..n]))] + Groups(s[n..])
  }

  lemma DrainStart(s: seq<Record>)
    requires s != []
    ensures Groups(s) == Draining(s[0].key, [], s)
  {
    var n := Lead(s, s[0].key);
    assert [] + Values(s[..n]) == Values(s[..n]);
  }

  lemma DrainNext(key: seq<byte>, values: seq<seq<byte>>, s: seq<Record>)
    requires s != [] && s[0].key == key
    ensures Draining(key, values, s) == Draining(key, values + [s[0].value], s[1..])
  {
    var n := Lead(s[1..], key);
    assert Lead(s, key) == n + 1;
    assert s[1..][n..] == s[n + 1..];
    assert values + Values(s[..n + 1]) == (values + [s[0].value]) + Values(s[1..][..n]);
  }

  lemma DrainEnd(key: seq<byte>, values: seq<seq<byte>>, s: seq<Record>)
    requires s == [] || s[0].key != key
    ensures Draining(key, values, s) == [Group(key, values)] + Groups(s)
  {
    assert values + Values(s[..0]) == values;
    assert s[0..] == s;
  }

  /** The calls for one key. */
  function CallsFor(gs: seq<Group>, key: seq<byte>): seq<Group> {
    if gs == [] then []
    else (if gs[0].key == key then [gs[0]] else []) + CallsFor(gs[1..], key)
  }

  lemma {:induction false} SelectAppend(x: seq<Record>, y: seq<Record>, key: seq<byte>)
    ensures Select(x + y, key) == Select(x, key) + Select(y, key)
  {
    if y == [] {
      assert x + y == x;
    } else {
      var front, last := y[..|y| - 1], y[|y| - 1];
      SelectAppend(x, front, key);
      assert (x + y)[..|x + y| - 1] == x + front;
      Assoc(Select(x, key), Select(front, key), [last]);
    }
  }

  lemma {:induction false} SelectSame(s: seq<Record>, key: seq<byte>)
    requires forall i :: 0 <= i < |s| ==> s[i].key == key
    ensures Select(s, key) == s
  {
    if s == [] {
    } else {
      SelectSame(s[..|s| - 1], key);
      SnocEta(s);
    }
  }

  lemma {:induction false} SelectNone(s: seq<Record>, key: seq<byte>)
    requires forall i :: 0 <= i < |s| ==> s[i].key != key
    ensures Select(s, key) == []
  {
    if s == [] {
    } else {
      SelectNone(s[..|s| - 1], key);
    }
  }

  /** The key of a call is the key of a record. */
  lemma {:induction false} GroupKey(s: seq<Record>, g: nat) returns (i: nat)
    requires g < |Groups(s)|
    ensures i < |s| && s[i].key == Groups(s)[g].key
    decreases g
  {
    var n := Lead(s, s[0].key);
    if g == 0 {
      i := 0;
    } else {
      assert Groups(s)[g] == Groups(s[n..])[g - 1];
      var j := GroupKey(s[n..], g - 1);
      i := n + j;
    }
  }

  ghost predicate Increasing(gs: seq<Group>) {
    forall g, h :: 0 <= g < h < |gs| ==> StrCmp(gs[g].key, gs[h].key) < 0
  }

  lemma LeadSplits(s: seq<Record>)
    requires Sorted(s) && CKeys(s) && s != []
    ensures var n := Lead(s, s[0].key);
      && Sorted(s[n..]) && CKeys(s[n..])
      && forall i :: n <= i < |s| ==> StrCmp(s[0].key, s[i].key) < 0 && s[i].key != s[0].key
  {
    var n := Lead(s, s[0].key);
    forall i | n <= i < |s| ensures StrCmp(s[0].key, s[i].key) < 0 && s[i].key != s[0].key {
      assert StrCmp(s[0].key, s[n].key) <= 0;
      CompareEqual(s[0].key, s[n].key);
      if n < i {
        CompareTransitive(s[0].key, s[n].key, s[i].key);
      }
      CompareEqual(s[0].key, s[i].key);
    }
  }

  /** A sorted partition is reduced key by key in strictly increasing order. */
  lemma {:induction false} GroupsIncrease(s: seq<Record>)
    requires Sorted(s) && CKeys(s)
    ensures Increasing(Groups(s))
    decreases |s|
  {
    if s == [] {
    } else {
      var n := Lead(s, s[0].key);
      LeadSplits(s);
      GroupsIncrease(s[n..]);
      var gs := Groups(s);
      forall h | 0 < h < |gs| ensures StrCmp(gs[0].key, gs[h].key) < 0 {
        assert gs[h] == Groups(s[n..])[h - 1];
        var i := GroupKey(s[n..], h - 1);
        assert s[n + i].key == gs[h].key;
      }
    }
  }

  /** In a sorted partition each key is reduced exactly once if it occurs and not at all otherwise, with exactly the
      values of its records, in order. */
  lemma {:induction false} GroupsOnce(s: seq<Record>, key: seq<byte>)
    requires Sorted(s) && CKeys(s)
    ensures CallsFor(Groups(s), key)
         == if Select(s, key) == [] then [] else [Group(key, Values(Select(s, key)))]
    decreases |s|
  {
    if s == [] {
    } else {
      var n := Lead(s, s[0].key);
      LeadSplits(s);
      GroupsOnce(s[n..], key);
      SelectLead(s, key);
      CallsForHead(Group(s[0].key, Values(s[..n])), Groups(s[n..]), key);
    }
  }

  lemma CallsForHead(g: Group, gs: seq<Group>, key: seq<byte>)
    ensures CallsFor([g] + gs, key) == if g.key == key then [g] + CallsFor(gs, key) else CallsFor(gs, key)
  {
    assert ([g] + gs)[1..] == gs;
  }

  lemma SelectLead(s: seq<Record>, key: seq<byte>)
    requires Sorted(s) && CKeys(s) && s != []
    ensures var n := Lead(s, s[0].key);
      && (key == s[0].key ==> Select(s, key) == s[..n] && Select(s[n..], key) == [])
      && (key != s[0].key ==> Select(s, key) == Select(s[n..], key))
  {
    var n := Lead(s, s[0].key);
    assert s == s[..n] + s[n..];
    if key == s[0].key {
      LeadSplits(s);
      SelectFront(s[..n], s[n..], key);
    } else {
      SelectBack(s[..n], s[n..], key);
    }
  }

  lemma SelectFront(x: seq<Record>, y: seq<Record>, key: seq<byte>)
    requires forall i :: 0 <= i < |x| ==> x[i].key == key
    requires forall i :: 0 <= i < |y| ==> y[i].key != key
    ensures Select(x + y, key) == x && Select(y, key) == []
  {
    SelectAppend(x, y, key);
    SelectSame(x, key);
    SelectNone(y, key);
  }

  lemma SelectBack(x: seq<Record>, y: seq<Record>, key: seq<byte>)
    requires forall i :: 0 <= i < |x| ==> x[i].key != key
    ensures Select(x + y, key) == Select(y, key)
  {
    SelectAppend(x, y, key);
    SelectNone(x, key);
  }

  // ---- the default partitioner

  const WORD := 0x1_0000_0000_0000_0000  // unsigned long

  /** A byte read through `char *`, with the sign x86 gives it. */
  function SignedChar(b: byte): (c: int)
    ensures -128 <= c <= 127 && (c - b as int) % 256 == 0
  {
    if b < 128 then b as int else b as int - 256
  }

  /** The hash without wrap-around. */
  function PolyHash(key: seq<byte>): int {
    if key == [] then 5381 else PolyHash(key[..|key| - 1]) * 33 + SignedChar(key[|key| - 1])
  }

  function Power(base: int, n: nat): int {
    if n == 0 then 1 else base * Power(base, n - 1)
  }

  /** The characters of a key weighted by powers of 33, the last with weight 1. */
  function Weighted(key: seq<byte>): int {
    if key == [] then 0 else SignedChar(key[0]) * Power(33, |key| - 1) + Weighted(key[1..])
  }

  lemma {:induction false} WeightedSnoc(front: seq<byte>, last: byte)
    ensures Weighted(front + [last]) == Weighted(front) * 33 + SignedChar(last)
  {
    var key := front + [last];
    if front == [] {
      assert key[1..] == [];
    } else {
      WeightedSnoc(front[1..], last);
      assert key[1..] == front[1..] + [last];
      WeightedStep(SignedChar(front[0]), Power(33, |front| - 1));
    }
  }

  lemma WeightedStep(c: int, w: int)
    ensures c * (33 * w) == c * w * 33
  {
  }

  /** Step by step the hash builds up a polynomial in 33. */
  lemma {:induction false} HashIsPolynomial(key: seq<byte>)
    ensures PolyHash(key) == 5381 * Power(33, |key|) + Weighted(key)
  {
    if key == [] {
    } else {
      var front, last := key[..|key| - 1], key[|key| - 1];
      HashIsPolynomial(front);
      WeightedSnoc(front, last);
      assert key == front + [last];
      assert Power(33, |key|) == 33 * Power(33, |front|);
    }
  }

  /** `MR_DefaultHashPartition`: the polynomial 5381 * 33^n + c_0 * 33^(n-1) + ... + c_(n-1) in the signed characters,
      modulo 2^64 although every step wraps around, and then modulo the number of partitions. */
  method DefaultHashPartition(key: seq<byte>, numPartitions: nat) returns (part: nat)
    requires 0 < numPartitions
    ensures part == (5381 * Power(33, |key|) + Weighted(key)) % 0x1_0000_0000_0000_0000 % numPartitions
    ensures part < numPartitions
  {
    var hash := 5381;
    for i := 0 to |key|
      invariant 0 <= hash < WORD && hash == PolyHash(key[..i]) % WORD
    {
      assert key[..i + 1][..i] == key[..i];
      WrapStep(PolyHash(key[..i]), SignedChar(key[i]));
      hash := (hash * 33 + SignedChar(key[i])) % WORD;
    }
    assert key[..|key|] == key;
    HashIsPolynomial(key);
    part := hash % numPartitions;
  }

  lemma WrapStep(h: int, c: int)
    ensures (h % WORD * 33 + c) % WORD == (h * 33 + c) % WORD
  {
    var q := h / WORD;
    assert h == q * WORD + h % WORD;
    ModAdd(h % WORD * 33 + c, q * 33);
  }

  lemma ModAdd(x: int, k: int)
    ensures (x + k * WORD) % WORD == x % WORD
  {
    var q, r := x / WORD, x % WORD;
    assert x + k * WORD == (q + k) * WORD + r;
    DivUnique(x + k * WORD, q + k, r);
  }

  lemma DivUnique(x: int, q: int, r: int)
    requires x == q * WORD + r && 0 <= r < WORD
    ensures x % WORD == r
  {
  }
}
