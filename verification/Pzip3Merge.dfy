/** concurrency-pzip/wzip/pzip3.c, `printOutput`: the pass that merges runs across page boundaries in place and lays
    the records out in one buffer. */
module Pzip3Merge {
  import opened Rle
  import opened Records
  import opened Pzip3Work

  /** `out[i]` are separate structs with separate count arrays, and hold the records `chunks[i]`. */
  ghost predicate Separate(out: seq<Output>) {
    forall i, j :: 0 <= i < j < |out| ==> out[i] != out[j] && out[i].count != out[j].count
  }

  ghost predicate Contains(o: Output, rs: seq<Run>)
    reads o, o.data, o.count
  {
    o.Valid() && o.Runs() == rs
  }

  /** `*((int*) p) = n; *((char*) p + 4) = c;` at `finalOutput + pos`. */
  method WriteRecord(finalOutput: array<byte>, pos: nat, num: int, character: byte)
    requires pos + 5 <= finalOutput.Length
    modifies finalOutput
    ensures finalOutput[..pos] == old(finalOutput[..pos])
    ensures finalOutput[pos..pos + 5] == RecordBytes(Run(num, character))
  {
    var bytes := IntBytes(num);
    finalOutput[pos], finalOutput[pos + 1], finalOutput[pos + 2], finalOutput[pos + 3]
      := bytes[0], bytes[1], bytes[2], bytes[3];
    finalOutput[pos + 4] := character;
  }

  /** The two stores and two pointer increments that append a record. */
  method WriteNext(finalOutput: array<byte>, pos0: nat, num: int, character: byte, ghost emitted: seq<Run>)
    returns (pos: nat)
    requires pos0 + 5 <= finalOutput.Length && finalOutput[..pos0] == Serialize(emitted)
    modifies finalOutput
    ensures pos == pos0 + 5 && finalOutput[..pos] == Serialize(emitted + [Run(num, character)])
  {
    WriteRecord(finalOutput, pos0, num, character);
    pos := pos0 + 5;
    SerializeSnoc(emitted, Run(num, character));
    assert finalOutput[..pos] == finalOutput[..pos0] + finalOutput[pos0..pos];
  }

  lemma AppendNext(e: seq<Run>, rs: seq<Run>, j: nat)
    requires j < |rs|
    ensures (e + rs[..j]) + [rs[j]] == e + rs[..j + 1]
  {
  }

  /** The inner loop: append the remaining records of one page at the write cursor. */
  method EmitPage(o: Output, finalOutput: array<byte>, pos0: nat, ghost emitted: seq<Run>) returns (pos: nat)
    requires o.Valid() && pos0 + 5 * o.size <= finalOutput.Length && o.data != finalOutput
    requires finalOutput[..pos0] == Serialize(emitted)
    modifies finalOutput
    ensures pos == pos0 + 5 * o.size
    ensures finalOutput[..pos] == Serialize(emitted + o.Runs())
  {
    pos := pos0;
    ghost var rs := o.Runs();
    assert emitted + rs[..0] == emitted;
    for j := 0 to o.size
      invariant pos == pos0 + 5 * j
      invariant finalOutput[..pos] == Serialize(emitted + rs[..j])
    {
      assert rs[j] == Run(o.count[j], o.data[j]);
      AppendNext(emitted, rs, j);
      pos := WriteNext(finalOutput, pos, o.count[j], o.data[j], emitted + rs[..j]);
    }
    assert rs[..o.size] == rs;
  }

  /** The boundary test: when the last character of page `a` is the first of page `b`, the count moves over to `b` and
      `a` shrinks by one.  The records of the two together are then the glued records. */
  method MergeBoundary(a: Output, b: Output)
    requires a.Valid() && b.Valid() && a.size > 0 && b.size > 0 && a != b && a.count != b.count
    modifies a, b.count
    ensures a.Valid() && b.Valid() && old(a.size) - 1 <= a.size <= old(a.size)
    ensures a.Runs() + b.Runs() == Join(old(a.Runs()), old(b.Runs()))
  {
    ghost var x, y := a.Runs(), b.Runs();
    if a.data[a.size - 1] == b.data[0] {
      b.count[0] := b.count[0] + a.count[a.size - 1];
      a.size := a.size - 1;
      Moved(x, y, a.Runs(), b.Runs());
    } else {
      assert a.Runs() == x && b.Runs() == y;
    }
  }

  lemma Moved(x: seq<Run>, y: seq<Run>, x1: seq<Run>, y1: seq<Run>)
    requires x != [] && y != [] && x[|x| - 1].ch == y[0].ch && |x1| == |x| - 1 && |y1| == |y|
    requires forall j :: 0 <= j < |x1| ==> x1[j] == x[j]
    requires y1[0] == Run(x[|x| - 1].count + y[0].count, y[0].ch)
    requires forall j :: 0 < j < |y1| ==> y1[j] == y[j]
    ensures x1 + y1 == Join(x, y)
  {
    assert x1 == x[..|x| - 1];
    assert y1 == [y1[0]] + y[1..];
    Assoc(x1, [y1[0]], y[1..]);
  }

  lemma JoinBehind(e: seq<Run>, x: seq<Run>, y: seq<Run>)
    requires x != []
    ensures Join(e + x, y) == e + Join(x, y)
  {
    if y != [] && x[|x| - 1].ch == y[0].ch {
      var glued := [Run(x[|x| - 1].count + y[0].count, y[0].ch)];
      assert (e + x)[..|e + x| - 1] == e + x[..|x| - 1];
      Assoc(e, x[..|x| - 1], glued);
      Assoc(e, x[..|x| - 1] + glued, y[1..]);
    } else {
      Assoc(e, x, y);
    }
  }

  lemma StitchTake(chunks: seq<seq<Run>>, i: nat)
    requires i < |chunks|
    ensures Stitch(chunks[..i + 1]) == Join(Stitch(chunks[..i]), chunks[i])
  {
    assert chunks[..i + 1][..i] == chunks[..i];
  }

  /** `printOutput`: whatever nonempty record lists `chunks` the consumers left in `out`, the file written is their
      stitching, and the write cursor stays inside the allocated buffer.  `counts` names the count arrays. */
  method PrintOutput(out: seq<Output>, pageSize: nat, ghost chunks: seq<seq<Run>>, ghost counts: set<array<int>>)
    returns (file: seq<byte>)
    requires Separate(out) && |chunks| == |out|
    requires forall i :: 0 <= i < |out| ==> Contains(out[i], chunks[i]) && out[i].count in counts
    requires forall i :: 0 <= i < |out| ==> 0 < |chunks[i]| <= pageSize
    modifies out, counts
    ensures file == Serialize(Stitch(chunks))
  {
    var finalOutput := Allocate(|out|, pageSize);
    Start(chunks, pageSize);
    var pos := Rounds(out, pageSize, finalOutput, chunks, counts);
    file := finalOutput[..pos];
  }

  /** The outer loop. */
  method Rounds(out: seq<Output>, pageSize: nat, finalOutput: array<byte>, ghost chunks: seq<seq<Run>>,
                ghost counts: set<array<int>>)
    returns (pos: nat)
    requires Separate(out) && |chunks| == |out| && Pending(chunks, chunks, [], 0, pageSize)
    requires forall i :: 0 <= i < |out| ==> Contains(out[i], chunks[i])
    requires forall i :: 0 <= i < |out| ==> out[i].count in counts && out[i].data != finalOutput
    requires finalOutput.Length == 5 * Room(|out|, pageSize)
    modifies out, counts, finalOutput
    ensures pos <= finalOutput.Length && finalOutput[..pos] == Serialize(Stitch(chunks))
  {
    pos := 0;
    ghost var emitted: seq<Run> := [];
    ghost var now := chunks;
    var i := 0;
    while i < |out|
      invariant i <= |out|
      invariant |now| == |out| && Pending(now, chunks, emitted, i, pageSize)
      invariant forall k :: 0 <= k < |out| ==> Contains(out[k], now[k])
      invariant pos == 5 * |emitted| && |emitted| <= Room(i, pageSize)
      invariant pos <= finalOutput.Length && finalOutput[..pos] == Serialize(emitted)
    {
      RoomGrows(i + 1, |out|, pageSize);
      pos, emitted, now := Round(out, i, pageSize, finalOutput, pos, chunks, emitted, now);
      i := i + 1;
    }
  }

  /** `n` pages' worth of records. */
  function Room(n: nat, pageSize: nat): nat {
    if n == 0 then 0 else Room(n - 1, pageSize) + pageSize
  }

  lemma {:induction false} RoomIs(n: nat, pageSize: nat)
    ensures Room(n, pageSize) == n * pageSize
  {
    if n == 0 {
    } else {
      RoomIs(n - 1, pageSize);
    }
  }

  lemma {:induction false} RoomGrows(i: nat, n: nat, pageSize: nat)
    requires i <= n
    ensures Room(i, pageSize) <= Room(n, pageSize)
  {
    if i < n {
      RoomGrows(i, n - 1, pageSize);
    }
  }

  /** The `malloc` of the output buffer: one 5-byte record for every byte of every page. */
  method Allocate(totalPages: nat, pageSize: nat) returns (finalOutput: array<byte>)
    ensures fresh(finalOutput) && finalOutput.Length == 5 * Room(totalPages, pageSize)
  {
    RoomIs(totalPages, pageSize);
    finalOutput := new byte[totalPages * pageSize * 5];
  }

  /** Before round `i`: the records already written, followed by what page `i` now holds, are the stitching of the
      first `i + 1` pages, and the later pages are as the consumers left them. */
  ghost predicate Pending(now: seq<seq<Run>>, chunks: seq<seq<Run>>, emitted: seq<Run>, i: nat, pageSize: nat)
    requires i <= |now| == |chunks|
  {
    && (i == |now| ==> emitted == Stitch(chunks))
    && (i < |now| ==> 0 < |now[i]| <= pageSize && emitted + now[i] == Stitch(chunks[..i + 1]))
    && (forall k :: i < k < |now| ==> 0 < |now[k]| <= pageSize && now[k] == chunks[k])
  }

  lemma Start(chunks: seq<seq<Run>>, pageSize: nat)
    requires forall i :: 0 <= i < |chunks| ==> 0 < |chunks[i]| <= pageSize
    ensures Pending(chunks, chunks, [], 0, pageSize)
  {
    if chunks != [] {
      StitchTake(chunks, 0);
      assert [] + chunks[0] == chunks[0];
    }
  }

  /** One round of the outer loop. */
  method Round(out: seq<Output>, i: nat, pageSize: nat, finalOutput: array<byte>, pos0: nat,
               ghost chunks: seq<seq<Run>>, ghost emitted0: seq<Run>, ghost now0: seq<seq<Run>>)
    returns (pos: nat, ghost emitted: seq<Run>, ghost now: seq<seq<Run>>)
    requires i < |out| == |chunks| == |now0| && Separate(out) && Pending(now0, chunks, emitted0, i, pageSize)
    requires forall k :: 0 <= k < |out| ==> Contains(out[k], now0[k])
    requires forall k :: 0 <= k < |out| ==> out[k].data != finalOutput
    requires pos0 + 5 * pageSize <= finalOutput.Length && finalOutput[..pos0] == Serialize(emitted0)
    modifies out[i], finalOutput
    modifies if i + 1 < |out| then {out[i + 1].count} else {}
    ensures |now| == |out| && Pending(now, chunks, emitted, i + 1, pageSize)
    ensures forall k :: 0 <= k < |out| ==> Contains(out[k], now[k])
    ensures |emitted0| <= |emitted| <= |emitted0| + pageSize
    ensures pos == pos0 + 5 * (|emitted| - |emitted0|) && pos <= finalOutput.Length
    ensures finalOutput[..pos] == Serialize(emitted)
  {
    now := MergeStep(out, i, pageSize, chunks, emitted0, now0);
    emitted := emitted0 + now[i];
    pos := EmitPage(out[i], finalOutput, pos0, emitted0);
  }

  /** Lines 287 to 292: the boundary between page `i` and the next one, if there is a next one. */
  method MergeStep(out: seq<Output>, i: nat, pageSize: nat, ghost chunks: seq<seq<Run>>, ghost emitted: seq<Run>,
                   ghost now0: seq<seq<Run>>)
    returns (ghost now: seq<seq<Run>>)
    requires i < |out| == |chunks| == |now0| && Separate(out) && Pending(now0, chunks, emitted, i, pageSize)
    requires forall k :: 0 <= k < |out| ==> Contains(out[k], now0[k])
    modifies out[i]
    modifies if i + 1 < |out| then {out[i + 1].count} else {}
    ensures |now| == |out| && Pending(now, chunks, emitted + now[i], i + 1, pageSize) && |now[i]| <= pageSize
    ensures forall k :: 0 <= k < |out| ==> Contains(out[k], now[k])
  {
    now := now0;
    if i < |out| - 1 {
      MergeBoundary(out[i], out[i + 1]);
      now := now0[i := out[i].Runs()][i + 1 := out[i + 1].Runs()];
      PendingMerged(now0, now, chunks, emitted, i, pageSize);
    } else {
      assert chunks[..i + 1] == chunks;
    }
  }

  lemma PendingMerged(now0: seq<seq<Run>>, now: seq<seq<Run>>, chunks: seq<seq<Run>>, emitted: seq<Run>, i: nat,
                      pageSize: nat)
    requires i + 1 < |now0| == |chunks| == |now| && Pending(now0, chunks, emitted, i, pageSize)
    requires now[i] + now[i + 1] == Join(now0[i], now0[i + 1]) && |now[i + 1]| == |now0[i + 1]|
    requires forall k :: i + 1 < k < |now0| ==> now[k] == now0[k]
    ensures Pending(now, chunks, emitted + now[i], i + 1, pageSize)
  {
    StitchTake(chunks, i + 1);
    JoinBehind(emitted, now0[i], now0[i + 1]);
    Assoc(emitted, now[i], now[i + 1]);
  }
}
