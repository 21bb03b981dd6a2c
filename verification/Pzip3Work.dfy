/** concurrency-pzip/wzip/pzip3.c: the circular queue, the output position and the page compressor, each in the in-place
    form of the source. */
module Pzip3Work {
  import opened Rle
  import opened Pzip3Pages

  const Q_CAPACITY := 10

  /** The value of the queue's four globals. */
  datatype Ring = Ring(buf: seq<Page>, head: nat, tail: nat, size: int)

  ghost predicate RingShape(r: Ring) {
    |r.buf| == Q_CAPACITY && r.head < Q_CAPACITY && r.tail < Q_CAPACITY
  }

  /** The head is where the next page goes: `size` slots after the tail. */
  ghost predicate RingValid(r: Ring) {
    RingShape(r) && 0 <= r.size <= Q_CAPACITY && r.head == (r.tail + r.size) % Q_CAPACITY
  }

  /** The live slots, oldest first. */
  function Queued(r: Ring): (s: seq<Page>)
    requires |r.buf| == Q_CAPACITY
    ensures |s| == if r.size > 0 then r.size else 0
    ensures forall i :: 0 <= i < |s| ==> s[i] == r.buf[(r.tail + i) % Q_CAPACITY]
  {
    if r.size > 0 then seq(r.size, i requires i >= 0 => r.buf[(r.tail + i) % Q_CAPACITY]) else []
  }

  function RingPut(r: Ring, b: Page): Ring
    requires RingShape(r)
  {
    Ring(r.buf[r.head := b], (r.head + 1) % Q_CAPACITY, r.tail, r.size + 1)
  }

  function RingGet(r: Ring): Ring
    requires RingShape(r)
  {
    r.(tail := (r.tail + 1) % Q_CAPACITY, size := r.size - 1)
  }

  /** `put` keeps the ring's shape exactly when the queue is not full, and then appends. */
  lemma PutShape(r: Ring, b: Page)
    requires RingValid(r)
    ensures RingValid(RingPut(r, b)) <==> r.size < Q_CAPACITY
  {
  }

  lemma PutAppends(r: Ring, b: Page)
    requires RingValid(r) && r.size < Q_CAPACITY
    ensures Queued(RingPut(r, b)) == Queued(r) + [b]
  {
    var q, q' := Queued(r), Queued(RingPut(r, b));
    assert |q'| == |q| + 1;
    assert q'[r.size] == b;
    forall i | 0 <= i < r.size ensures q'[i] == q[i] {
      SlotsDiffer(r.tail, i, r.size);
      assert q[i] == r.buf[(r.tail + i) % Q_CAPACITY];
    }
  }

  lemma SlotsDiffer(tail: nat, i: nat, j: nat)
    requires i < j < i + Q_CAPACITY
    ensures (tail + i) % Q_CAPACITY != (tail + j) % Q_CAPACITY
  {
  }

  lemma GetShape(r: Ring)
    requires RingValid(r)
    ensures RingValid(RingGet(r)) <==> r.size > 0
  {
    NextSlot(r.tail, r.size - 1);
  }

  lemma GetTakesOldest(r: Ring)
    requires RingValid(r) && r.size > 0
    ensures Queued(r) == [r.buf[r.tail]] + Queued(RingGet(r))
  {
    var q, q' := Queued(r), Queued(RingGet(r));
    assert |q| == 1 + |q'|;
    assert q[0] == r.buf[r.tail];
    forall i | 0 <= i < |q'| ensures q[i + 1] == q'[i] {
      NextSlot(r.tail, i);
    }
  }

  lemma NextSlot(tail: nat, i: int)
    ensures (tail + (i + 1)) % Q_CAPACITY == ((tail + 1) % Q_CAPACITY + i) % Q_CAPACITY
  {
  }

  /** The queue globals and the two functions that update them. */
  class PageQueue {
    const buf: array<Page>
    var qHead: nat
    var qTail: nat
    var qSize: int

    ghost predicate Shape()
      reads this
    {
      buf.Length == Q_CAPACITY && qHead < Q_CAPACITY && qTail < Q_CAPACITY
    }

    ghost function Value(): Ring
      reads this, buf
    {
      Ring(buf[..], qHead, qTail, qSize)
    }

    constructor ()
      ensures Shape() && RingValid(Value()) && Queued(Value()) == []
      ensures fresh(buf)
    {
      buf := new Page[Q_CAPACITY](_ => Page(0, 0, 0, 0));
      qHead, qTail, qSize := 0, 0, 0;
    }

    /** Appends to a queue that is not full; what it does to a full one is the ring operation too. */
    method Put(b: Page)
      requires Shape()
      modifies this, buf
      ensures Shape() && Value() == RingPut(old(Value()), b)
      ensures old(RingValid(Value())) && old(qSize) < Q_CAPACITY ==>
        RingValid(Value()) && Queued(Value()) == old(Queued(Value())) + [b]
      ensures old(RingValid(Value())) && old(qSize) == Q_CAPACITY ==> !RingValid(Value())
    {
      if RingValid(Value()) {
        PutShape(Value(), b);
        if qSize < Q_CAPACITY {
          PutAppends(Value(), b);
        }
      }
      buf[qHead] := b;
      qHead := (qHead + 1) % Q_CAPACITY;
      qSize := qSize + 1;
    }

    /** Removes and returns the oldest page of a queue that is not empty. */
    method Get() returns (b: Page)
      requires Shape()
      modifies this
      ensures Shape() && Value() == RingGet(old(Value()))
      ensures b == old(Value()).buf[old(Value()).tail]
      ensures old(RingValid(Value())) && old(qSize) > 0 ==>
        RingValid(Value()) && old(Queued(Value())) == [b] + Queued(Value())
      ensures old(RingValid(Value())) && old(qSize) == 0 ==> !RingValid(Value())
    {
      if RingValid(Value()) {
        GetShape(Value());
        if qSize > 0 {
          GetTakesOldest(Value());
        }
      }
      b := buf[qTail];
      qTail := (qTail + 1) % Q_CAPACITY;
      qSize := qSize - 1;
    }
  }

  /** The first `k` entries of `pages_per_file`, added up. */
  function SumFirst(pagesPerFile: seq<int>, k: nat): int
    requires k <= |pagesPerFile|
  {
    if k == 0 then 0 else SumFirst(pagesPerFile, k - 1) + pagesPerFile[k - 1]
  }

  method CalculateOutputPosition(pagesPerFile: array<int>, temp: Page) returns (position: int)
    requires temp.file < pagesPerFile.Length
    ensures position == SumFirst(pagesPerFile[..], temp.file) + temp.number
  {
    position := 0;
    for i := 0 to temp.file
      invariant position == SumFirst(pagesPerFile[..], i)
    {
      position := position + pagesPerFile[i];
    }
    position := position + temp.number;
  }

  /** `struct output`: parallel arrays of characters and counts, of which `size` entries are in use. */
  class Output {
    const data: array<byte>
    const count: array<int>
    var size: nat

    ghost predicate Valid()
      reads this
    {
      size <= data.Length && size <= count.Length
    }

    /** The records held. */
    ghost function Runs(): (rs: seq<Run>)
      requires Valid()
      reads this, data, count
      ensures |rs| == size
      ensures forall j :: 0 <= j < |rs| ==> rs[j] == Run(count[j], data[j])
    {
      seq(size, j requires Valid() && 0 <= j < size reads this, data, count => Run(count[j], data[j]))
    }

    constructor (data: array<byte>, count: array<int>, size: nat)
      ensures this.data == data && this.count == count && this.size == size
    {
      this.data, this.count, this.size := data, count, size;
    }
  }

  /** The first `|rs|` entries of the two arrays hold the records `rs`. */
  ghost predicate Holds(count: array<int>, data: array<byte>, rs: seq<Run>)
    reads count, data
  {
    && |rs| <= count.Length && |rs| <= data.Length
    && forall j :: 0 <= j < |rs| ==> count[j] == rs[j].count && data[j] == rs[j].ch
  }

  /** Compress one page: the outer loop starts a run, the inner loop swallows the rest of it. */
  method RLECompress(address: seq<byte>) returns (compressed: Output)
    ensures fresh(compressed) && fresh(compressed.data) && fresh(compressed.count)
    ensures compressed.Valid() && compressed.Runs() == Encode(address)
  {
    var n := |address|;
    var count := new int[n];
    var tempString := new byte[n];
    var countIndex, i := 0, 0;
    ghost var done: seq<Run> := [];
    while i < n
      invariant countIndex == |done| <= i <= n
      invariant Holds(count, tempString, done) && done == Encode(address[..i])
      invariant i < n && done != [] ==> done[|done| - 1].ch != address[i]
    {
      i, done := OneRun(address, i, count, tempString, countIndex, done);
      countIndex := countIndex + 1;
    }
    assert address[..n] == address;
    compressed := Pack(count, tempString, done, countIndex);
  }

  /** One round of the outer loop: a whole run. */
  method OneRun(address: seq<byte>, i0: nat, count: array<int>, tempString: array<byte>, countIndex: nat,
                ghost done0: seq<Run>)
    returns (i: nat, ghost done: seq<Run>)
    requires countIndex == |done0| <= i0 < |address| == count.Length == tempString.Length
    requires Holds(count, tempString, done0) && done0 == Encode(address[..i0])
    requires done0 != [] ==> done0[|done0| - 1].ch != address[i0]
    modifies count, tempString
    ensures countIndex + 1 == |done| <= i && i0 < i <= |address|
    ensures Holds(count, tempString, done) && done == Encode(address[..i])
    ensures i < |address| ==> done[|done| - 1].ch != address[i]
  {
    tempString[countIndex] := address[i0];
    count[countIndex] := 1;
    StartRun(address, i0, done0);
    i := FinishRun(address, i0, count, countIndex, done0);
    assert Holds(count, tempString, done0);
    done := done0 + [Run(count[countIndex], address[i])];
    HoldsSnoc(count, tempString, done0);
    i := i + 1;
  }

  lemma HoldsSnoc(count: array<int>, data: array<byte>, rs: seq<Run>)
    requires Holds(count, data, rs) && |rs| < count.Length && |rs| < data.Length
    ensures Holds(count, data, rs + [Run(count[|rs|], data[|rs|])])
  {
  }

  /** The last three assignments of `RLECompress`. */
  method Pack(count: array<int>, tempString: array<byte>, ghost done: seq<Run>, countIndex: nat)
    returns (compressed: Output)
    requires countIndex == |done| && Holds(count, tempString, done)
    ensures fresh(compressed) && fresh(compressed.data) && compressed.count == count
    ensures compressed.Valid() && compressed.Runs() == done
  {
    var data := Realloc(tempString, countIndex);
    assert forall j :: 0 <= j < countIndex ==> data[..][j] == tempString[j];
    compressed := new Output(data, count, countIndex);
  }

  /** The inner loop: count the bytes equal to the first one of the run. */
  method FinishRun(address: seq<byte>, i0: nat, count: array<int>, countIndex: nat, ghost done: seq<Run>)
    returns (i: nat)
    requires i0 < |address| && countIndex < count.Length
    requires Encode(address[..i0 + 1]) == done + [Run(count[countIndex], address[i0])]
    modifies count
    ensures i0 <= i < |address| && address[i] == address[i0]
    ensures i + 1 < |address| ==> address[i + 1] != address[i]
    ensures Encode(address[..i + 1]) == done + [Run(count[countIndex], address[i])]
    ensures forall j :: 0 <= j < count.Length && j != countIndex ==> count[j] == old(count[j])
  {
    i := i0;
    while i + 1 < |address| && address[i] == address[i + 1]
      invariant i0 <= i < |address| && address[i] == address[i0]
      invariant Encode(address[..i + 1]) == done + [Run(count[countIndex], address[i])]
      invariant forall j :: 0 <= j < count.Length && j != countIndex ==> count[j] == old(count[j])
    {
      i := i + 1;
      ExtendRun(address, i, done, count[countIndex]);
      count[countIndex] := count[countIndex] + 1;
    }
  }

  /** The C library's `realloc` to a smaller size: the kept bytes are unchanged. */
  method Realloc(a: array<byte>, n: nat) returns (b: array<byte>)
    requires n <= a.Length
    ensures fresh(b) && b[..] == a[..n]
  {
    b := new byte[n](k requires 0 <= k < n reads a => a[k]);
  }

  lemma StartRun(s: seq<byte>, i: nat, done: seq<Run>)
    requires i < |s| && done == Encode(s[..i])
    requires done != [] ==> done[|done| - 1].ch != s[i]
    ensures Encode(s[..i + 1]) == done + [Run(1, s[i])]
  {
    assert s[..i + 1] == s[..i] + [s[i]];
    EncodeSnoc(s[..i], s[i]);
  }

  lemma ExtendRun(s: seq<byte>, i: nat, done: seq<Run>, n: int)
    requires 0 < i < |s| && s[i - 1] == s[i]
    requires Encode(s[..i]) == done + [Run(n, s[i - 1])]
    ensures Encode(s[..i + 1]) == done + [Run(n + 1, s[i])]
  {
    assert s[..i + 1] == s[..i] + [s[i]];
    EncodeNext(s[..i], done, Run(n, s[i - 1]), s[i]);
  }
}
