/** concurrency-webserver/src_multi/wserver.c: the ring buffer of the FIFO policy and the sorted buffer of the
    smallest-file-first policy, in place. */
module ServerBuffers {

  /** An accepted connection: `seqno` numbers connections in the order of arrival. */
  datatype Request = Request(seqno: nat, fd: int, size: int)

  // ---- FIFO

  /** Slot `i` places after `use`, around a ring of `n`. */
  function Slot(use: nat, i: nat, n: nat): (slot: nat)
    requires use < n && i <= n
    ensures slot < n
  {
    if use + i < n then use + i else use + i - n
  }

  /** The source's index arithmetic moves one place around the ring. */
  lemma NextSlot(use: nat, i: nat, n: nat)
    requires use < n && i < n
    ensures (use + 1) % n == Slot(use, 1, n)
    ensures (Slot(use, i, n) + 1) % n == Slot(use, i + 1, n)
  {
    Successor(use, n);
    Successor(Slot(use, i, n), n);
  }

  lemma Successor(x: nat, n: nat)
    requires x < n
    ensures (x + 1) % n == if x + 1 == n then 0 else x + 1
  {
  }

  /** `fill`, `use`, `count` and the buffer; whole requests stand for their descriptors. */
  class FifoBuffer {
    const buffer: array<Request>
    var fill: nat
    var use: nat
    var count: int

    ghost predicate Valid()
      reads this
    {
      && buffer.Length > 0 && fill < buffer.Length && use < buffer.Length && 0 <= count <= buffer.Length
      && fill == Slot(use, count, buffer.Length)
    }

    /** The waiting requests, oldest first. */
    ghost function Contents(): (s: seq<Request>)
      requires Valid()
      reads this, buffer
      ensures |s| == count
    {
      seq(count, i requires Valid() && 0 <= i < count reads this, buffer => buffer[Slot(use, i, buffer.Length)])
    }

    constructor (bufferNum: nat)
      requires bufferNum > 0
      ensures Valid() && buffer.Length == bufferNum && Contents() == [] && fresh(buffer)
    {
      buffer := new Request[bufferNum](_ => Request(0, 0, 0));
      fill, use, count := 0, 0, 0;
    }

    method Put(value: Request)
      requires Valid() && count < buffer.Length
      modifies this, buffer
      ensures Valid() && Contents() == old(Contents()) + [value]
    {
      NextSlot(use, count, buffer.Length);
      buffer[fill] := value;
      fill := (fill + 1) % buffer.Length;
      count := count + 1;
    }

    method Get() returns (temp: Request)
      requires Valid() && count > 0
      modifies this
      ensures Valid() && old(Contents()) == [temp] + Contents()
    {
      ghost var s := Contents();
      Successor(use, buffer.Length);
      temp := buffer[use];
      use := (use + 1) % buffer.Length;
      count := count - 1;
      assert Contents() == s[1..];
    }
  }

  // ---- smallest file first

  /** Where `put_sff` leaves a new request: after all that are not larger. */
  function InsertBySize(s: seq<Request>, r: Request): (t: seq<Request>)
    ensures |t| == |s| + 1
  {
    if s == [] || s[|s| - 1].size <= r.size then s + [r]
    else InsertBySize(s[..|s| - 1], r) + [s[|s| - 1]]
  }

  ghost predicate SizeSorted(s: seq<Request>) {
    forall i, j :: 0 <= i < j < |s| ==> s[i].size <= s[j].size
  }

  lemma {:induction false} InsertElements(s: seq<Request>, r: Request)
    ensures multiset(InsertBySize(s, r)) == multiset(s) + multiset{r}
    ensures forall x :: x in InsertBySize(s, r) <==> x in s || x == r
  {
    if s != [] && s[|s| - 1].size > r.size {
      var init, last := s[..|s| - 1], s[|s| - 1];
      assert s == init + [last];
      InsertElements(init, r);
    }
  }

  lemma {:induction false} InsertKeepsSizeSorted(s: seq<Request>, r: Request)
    requires SizeSorted(s)
    ensures SizeSorted(InsertBySize(s, r))
  {
    if s != [] && s[|s| - 1].size > r.size {
      var init := s[..|s| - 1];
      InsertKeepsSizeSorted(init, r);
      InsertElements(init, r);
      var t := InsertBySize(init, r);
      forall i | 0 <= i < |t| ensures t[i].size <= s[|s| - 1].size {
        assert t[i] in t;
      }
    }
  }

  /** The order of service: by size, and by arrival among equals. */
  ghost predicate Before(a: Request, b: Request) {
    a.size < b.size || (a.size == b.size && a.seqno < b.seqno)
  }

  ghost predicate Ordered(s: seq<Request>) {
    forall i, j :: 0 <= i < j < |s| ==> Before(s[i], s[j])
  }

  /** A newcomer goes behind equal sizes, so a buffer kept by `put_sff` stays in the order of service. */
  lemma {:induction false} InsertKeepsOrdered(s: seq<Request>, r: Request)
    requires Ordered(s)
    requires forall x :: x in s ==> x.seqno < r.seqno
    ensures Ordered(InsertBySize(s, r))
  {
    if s == [] {
    } else if s[|s| - 1].size <= r.size {
      forall i | 0 <= i < |s| ensures Before(s[i], r) {
        assert s[i] in s;
      }
    } else {
      var init := s[..|s| - 1];
      InsertKeepsOrdered(init, r);
      InsertElements(init, r);
      var t := InsertBySize(init, r);
      forall i | 0 <= i < |t| ensures Before(t[i], s[|s| - 1]) {
        assert t[i] in t;
      }
    }
  }

  class SffBuffer {
    const inforBuf: array<Request>
    var count: nat

    ghost predicate Valid()
      reads this, inforBuf
    {
      count <= inforBuf.Length && SizeSorted(inforBuf[..count])
    }

    ghost function Contents(): (s: seq<Request>)
      requires Valid()
      reads this, inforBuf
      ensures |s| == count
    {
      inforBuf[..count]
    }

    constructor (bufferNum: nat)
      ensures Valid() && inforBuf.Length == bufferNum && Contents() == [] && fresh(inforBuf)
    {
      inforBuf := new Request[bufferNum](_ => Request(0, 0, 0));
      count := 0;
    }

    /** The loop of `put_sff`: one pass of swaps towards the front that does not stop early. */
    method SwapTowardsFront(ghost s: seq<Request>, ghost infor: Request)
      requires count == |s| + 1 <= inforBuf.Length && inforBuf[..count] == s + [infor] && SizeSorted(s)
      modifies inforBuf
      ensures inforBuf[..count] == InsertBySize(s, infor)
    {
      var i := count - 1;
      ghost var at := i;
      while i > 0
        invariant 0 <= i <= at <= |s|
        invariant inforBuf[at] == infor
        invariant forall k :: 0 <= k < at ==> inforBuf[k] == s[k]
        invariant forall k :: at < k <= |s| ==> inforBuf[k] == s[k - 1]
        invariant forall k :: at <= k < |s| ==> infor.size < s[k].size
        invariant i < at ==> s[at - 1].size <= infor.size
      {
        if inforBuf[i].size < inforBuf[i - 1].size {
          var temp := inforBuf[i - 1];
          inforBuf[i - 1] := inforBuf[i];
          inforBuf[i] := temp;
          at := i - 1;
        }
        i := i - 1;
      }
      InsertedAt(s, at, infor, inforBuf[..count]);
    }

    method PutSff(infor: Request)
      requires Valid() && count < inforBuf.Length
      modifies this, inforBuf
      ensures Valid() && Contents() == InsertBySize(old(Contents()), infor)
    {
      ghost var s := Contents();
      count := count + 1;
      inforBuf[count - 1] := infor;
      SwapTowardsFront(s, infor);
      InsertKeepsSizeSorted(s, infor);
    }

    /** The loop of `get_sff`: everything behind the first moves down one place. */
    method ShiftDown()
      requires 0 < count <= inforBuf.Length
      modifies inforBuf
      ensures inforBuf[..count - 1] == old(inforBuf[1..count])
    {
      for i := 1 to count
        invariant forall k :: 0 <= k < i - 1 ==> inforBuf[k] == old(inforBuf[k + 1])
        invariant forall k :: i - 1 <= k < count ==> inforBuf[k] == old(inforBuf[k])
      {
        inforBuf[i - 1] := inforBuf[i];
      }
    }

    method GetSff() returns (infor: Request)
      requires Valid() && count > 0
      modifies this, inforBuf
      ensures Valid() && old(Contents()) == [infor] + Contents()
    {
      ghost var s := Contents();
      infor := inforBuf[0];
      ShiftDown();
      count := count - 1;
      assert inforBuf[..count] == s[1..];
    }
  }

  lemma {:induction false} InsertedAt(s: seq<Request>, at: nat, r: Request, t: seq<Request>)
    requires at <= |s| && |t| == |s| + 1 && t[at] == r
    requires forall k :: 0 <= k < at ==> t[k] == s[k]
    requires forall k :: at < k <= |s| ==> t[k] == s[k - 1]
    requires forall k :: at <= k < |s| ==> r.size < s[k].size
    requires at == 0 || s[at - 1].size <= r.size
    ensures t == InsertBySize(s, r)
  {
    if at < |s| {
      InsertedAt(s[..|s| - 1], at, r, t[..|s|]);
      assert t == t[..|s|] + [t[|s|]];
    }
  }
}
