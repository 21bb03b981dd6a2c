/** concurrency-pzip/wzip/pzip2.c: cutting into buffers, compressing a buffer, and the stitcher with a pending run. */
module Pzip2 {
  import opened Rle
  import opened Records
  import Pzip3Pages
  import opened Pzip3Merge

  /** The buffer `j` of a file, as `handleFile` cuts it: every buffer but the last has the full size. */
  function BufferOf(fileSize: nat, file: nat, j: nat, bufferSize: nat): Pzip3Pages.Page
    requires bufferSize > 0 && j * bufferSize <= fileSize
  {
    Pzip3Pages.Page(file, j, j * bufferSize,
      if j == Pzip3Pages.PagesInFile(fileSize, bufferSize) - 1 then fileSize - j * bufferSize else bufferSize)
  }

  /** `handleFile` and the producer of pzip3 cut a file in the same way. */
  lemma SameCut(fileSize: nat, file: nat, j: nat, bufferSize: nat)
    requires bufferSize > 0 && j < Pzip3Pages.PagesInFile(fileSize, bufferSize)
    ensures j * bufferSize <= fileSize
    ensures BufferOf(fileSize, file, j, bufferSize) == Pzip3Pages.PageOf(fileSize, file, j, bufferSize)
  {
    Pzip3Pages.PageArithmetic(fileSize, bufferSize);
    Pzip3Pages.PageInFile(fileSize, file, j, bufferSize);
  }

  /** `compress`: one pass with a running count that starts from the character 0 and no count. */
  method Compress(textString: seq<byte>) returns (result: array<Run>, numOfResultset: nat)
    ensures numOfResultset <= result.Length && result[..numOfResultset] == Encode(textString)
  {
    var max := |textString|;
    result := new Run[max](_ => Run(0, 0));
    var charCount, rIndex := 0, 0;
    var currentChar: byte := 0;
    for i := 0 to max
      invariant 0 <= rIndex && rIndex + (if 0 < i < max then 1 else 0) <= i
      invariant Compressing(textString, i, result[..rIndex], charCount, currentChar)
    {
      rIndex, charCount, currentChar := CompressByte(textString, i, result, rIndex, charCount, currentChar);
    }
    numOfResultset := rIndex;
  }

  /** The first `i` bytes are compressed into the stored records and, before the end, the run being counted. */
  ghost predicate Compressing(text: seq<byte>, i: nat, done: seq<Run>, count: int, ch: byte)
    requires i <= |text|
  {
    if i == 0 then done == [] && count == 0
    else if i == |text| then Encode(text) == done
    else count > 0 && Encode(text[..i]) == done + [Run(count, ch)]
  }

  /** The body of the loop of `compress`. */
  method CompressByte(text: seq<byte>, i: nat, result: array<Run>, rIndex0: nat, count0: int, char0: byte)
    returns (rIndex: nat, charCount: int, currentChar: byte)
    requires i < |text| == result.Length && rIndex0 + (if i > 0 then 1 else 0) <= i
    requires Compressing(text, i, result[..rIndex0], count0, char0)
    modifies result
    ensures rIndex + (if i + 1 < |text| then 1 else 0) <= i + 1
    ensures Compressing(text, i + 1, result[..rIndex], charCount, currentChar)
  {
    rIndex, charCount, currentChar := rIndex0, count0, char0;
    RunStep(text, i, result[..rIndex], charCount, currentChar);
    if text[i] == currentChar {
      charCount := charCount + 1;
    } else {
      if charCount > 0 {
        rIndex := Store(result, rIndex, Run(charCount, currentChar));
      }
      charCount := 1;
      currentChar := text[i];
    }
    assert Encode(text[..i + 1]) == result[..rIndex] + [Run(charCount, currentChar)];
    if i == |text| - 1 {
      assert text[..i + 1] == text;
      rIndex := Store(result, rIndex, Run(charCount, text[i]));
    }
  }

  /** `result[r_index++] = r;` */
  method Store(result: array<Run>, rIndex0: nat, r: Run) returns (rIndex: nat)
    requires rIndex0 < result.Length
    modifies result
    ensures rIndex == rIndex0 + 1 && result[..rIndex] == old(result[..rIndex0]) + [r]
  {
    result[rIndex0] := r;
    rIndex := rIndex0 + 1;
  }

  lemma RunStep(s: seq<byte>, i: nat, before: seq<Run>, count: int, ch: byte)
    requires i < |s| && count >= 0
    requires i == 0 ==> before == [] && count == 0
    requires i > 0 ==> count > 0 && Encode(s[..i]) == before + [Run(count, ch)]
    ensures |before| + (if count > 0 then 1 else 0) <= i
    ensures s[i] == ch ==> Encode(s[..i + 1]) == before + [Run(count + 1, ch)]
    ensures s[i] != ch ==>
      Encode(s[..i + 1]) == (if count > 0 then before + [Run(count, ch)] else before) + [Run(1, s[i])]
  {
    assert s[..i + 1] == s[..i] + [s[i]];
    EncodeCorrect(s[..i]);
    if i > 0 {
      EncodeNext(s[..i], before, Run(count, ch), s[i]);
    } else {
      EncodeSnoc(s[..i], s[i]);
    }
  }

  /** How many records the buffers hold together. */
  function CountRuns(results: seq<seq<Run>>): nat {
    if results == [] then 0 else CountRuns(results[..|results| - 1]) + |results[|results| - 1]|
  }

  /** The loop's state after `j` records of buffer `i`: `stitched` is the stitching of the earlier buffers.  The last
      record of every buffer but the last one is kept pending, to be merged or flushed by the next buffer. */
  ghost predicate Stitching(emitted: seq<Run>, num: int, ch: byte, stitched: seq<Run>, rs: seq<Run>, j: nat,
                            first: bool, last: bool)
    requires j <= |rs|
  {
    if j == 0 then
      if first then emitted == [] && num == 0 && stitched == [] else stitched == emitted + [Run(num, ch)]
    else if j == |rs| && !last then Join(stitched, rs) == emitted + [Run(num, ch)]
    else num == 0 && Join(stitched, rs[..j]) == emitted
  }

  lemma {:induction false} JoinOne(e: seq<Run>, num: int, ch: byte, r: Run)
    ensures ch == r.ch ==> Join(e + [Run(num, ch)], [r]) == e + [Run(num + r.count, ch)]
    ensures ch != r.ch ==> Join(e + [Run(num, ch)], [r]) == (e + [Run(num, ch)]) + [r]
    ensures Join([], [r]) == [] + [r] == [r]
  {
    assert (e + [Run(num, ch)])[..|e|] == e;
  }

  /** One round of the inner loop of `output`, on the value level. */
  function Round(emitted: seq<Run>, num: int, ch: byte, r: Run, flush: bool, keep: bool): (seq<Run>, int, byte) {
    var e := if flush && ch != r.ch then emitted + [Run(num, ch)] else emitted;
    var n := if flush && ch != r.ch then 0 else num;
    if keep then (e, n + r.count, r.ch)
    else if ch == r.ch then (e + [Run(r.count + n, ch)], 0, ch)
    else (e + [r], n, ch)
  }

  lemma RoundFirst(emitted: seq<Run>, num: int, ch: byte, stitched: seq<Run>, rs: seq<Run>, first: bool, last: bool)
    requires rs != [] && Stitching(emitted, num, ch, stitched, rs, 0, first, last)
    ensures var next := Round(emitted, num, ch, rs[0], !first, |rs| == 1 && !last);
      Stitching(next.0, next.1, next.2, stitched, rs, 1, first, last)
  {
    JoinOne(emitted, num, ch, rs[0]);
    if |rs| == 1 {
      assert rs == [rs[0]] == rs[..1];
    } else {
      assert rs[..1] == [rs[0]];
    }
  }

  lemma RoundLater(emitted: seq<Run>, num: int, ch: byte, stitched: seq<Run>, rs: seq<Run>, j: nat,
                   first: bool, last: bool)
    requires 0 < j < |rs| && Stitching(emitted, num, ch, stitched, rs, j, first, last)
    ensures var next := Round(emitted, num, ch, rs[j], false, j == |rs| - 1 && !last);
      Stitching(next.0, next.1, next.2, stitched, rs, j + 1, first, last)
  {
    assert rs[..j + 1] == rs[..j] + [rs[j]];
    assert j == |rs| - 1 ==> rs[..j + 1] == rs;
    JoinSnoc(stitched, rs[..j], rs[j]);
  }

  lemma CountRunsTake(results: seq<seq<Run>>, i: nat)
    requires i < |results|
    ensures CountRuns(results[..i + 1]) == CountRuns(results[..i]) + |results[i]|
    ensures CountRuns(results[..i + 1]) <= CountRuns(results)
  {
    assert results[..i + 1][..i] == results[..i];
    CountRunsGrows(results, i + 1);
  }

  lemma {:induction false} CountRunsGrows(results: seq<seq<Run>>, i: nat)
    requires i <= |results|
    ensures CountRuns(results[..i]) <= CountRuns(results)
    decreases |results|
  {
    if i < |results| {
      assert results[..|results| - 1][..i] == results[..i];
      CountRunsGrows(results[..|results| - 1], i);
    } else {
      assert results[..i] == results;
    }
  }

  /** Lines 192 to 230, one buffer: `i` is its index, `listsize` the number of buffers.  `used` counts the records of
      the buffers before it. */
  method OutputBuffer(result: seq<Run>, i: nat, listsize: nat, outputString: array<byte>, pos0: nat, num0: int,
                      char0: byte, ghost emitted0: seq<Run>, ghost stitched: seq<Run>, ghost used: nat)
    returns (pos: nat, numTemp: int, charTemp: byte, ghost emitted: seq<Run>)
    requires i < listsize && result != []
    requires Stitching(emitted0, num0, char0, stitched, result, 0, i == 0, i == listsize - 1)
    requires pos0 == 5 * |emitted0| && |emitted0| + (if i > 0 then 1 else 0) <= used
    requires 5 * (used + |result|) <= outputString.Length && outputString[..pos0] == Serialize(emitted0)
    modifies outputString
    ensures Stitching(emitted, numTemp, charTemp, stitched, result, |result|, i == 0, i == listsize - 1)
    ensures pos == 5 * |emitted| && |emitted| + (if i < listsize - 1 then 1 else 0) <= used + |result|
    ensures outputString[..pos] == Serialize(emitted)
  {
    pos, numTemp, charTemp, emitted := pos0, num0, char0, emitted0;
    for j := 0 to |result|
      invariant Stitching(emitted, numTemp, charTemp, stitched, result, j, i == 0, i == listsize - 1)
      invariant pos == 5 * |emitted| && |emitted| <= used + j
      invariant Waiting(i, listsize, j, |result|) ==> |emitted| + 1 <= used + j
      invariant outputString[..pos] == Serialize(emitted)
    {
      if j == 0 {
        RoundFirst(emitted, numTemp, charTemp, stitched, result, i == 0, i == listsize - 1);
      } else {
        RoundLater(emitted, numTemp, charTemp, stitched, result, j, i == 0, i == listsize - 1);
      }
      pos, numTemp, charTemp, emitted := OutputRecord(
        result[j], i > 0 && j == 0, j == |result| - 1 && i != listsize - 1, outputString, pos, numTemp, charTemp,
        emitted);
    }
  }

  /** A run is pending: before the first record of a later buffer, and after the last record of an earlier one. */
  predicate Waiting(i: nat, listsize: nat, j: nat, n: nat) {
    (j == 0 && i > 0) || (j == n && i != listsize - 1)
  }

  /** Lines 194 to 229, one record; `flush` and `keep` are the two position tests. */
  method OutputRecord(r: Run, flush: bool, keep: bool, outputString: array<byte>, pos0: nat, num0: int, char0: byte,
                      ghost emitted0: seq<Run>)
    returns (pos: nat, numTemp: int, charTemp: byte, ghost emitted: seq<Run>)
    requires pos0 == 5 * |emitted0| && pos0 <= outputString.Length && outputString[..pos0] == Serialize(emitted0)
    requires 5 * |Round(emitted0, num0, char0, r, flush, keep).0| <= outputString.Length
    modifies outputString
    ensures emitted == Round(emitted0, num0, char0, r, flush, keep).0
    ensures numTemp == Round(emitted0, num0, char0, r, flush, keep).1
    ensures charTemp == Round(emitted0, num0, char0, r, flush, keep).2
    ensures pos == 5 * |emitted| && pos <= outputString.Length && outputString[..pos] == Serialize(emitted)
  {
    pos, numTemp, charTemp, emitted := pos0, num0, char0, emitted0;
    if flush {
      if charTemp != r.ch {
        pos, emitted := Append(outputString, pos, numTemp, charTemp, emitted);
        numTemp := 0;
      }
    }
    if keep {
      numTemp := numTemp + r.count;
      charTemp := r.ch;
      return;
    }
    if charTemp == r.ch {
      pos, emitted := Append(outputString, pos, r.count + numTemp, charTemp, emitted);
      numTemp := 0;
    } else {
      pos, emitted := Append(outputString, pos, r.count, r.ch, emitted);
    }
  }

  /** One record at the write pointer. */
  method Append(outputString: array<byte>, pos0: nat, num: int, ch: byte, ghost emitted0: seq<Run>)
    returns (pos: nat, ghost emitted: seq<Run>)
    requires pos0 == 5 * |emitted0| && pos0 + 5 <= outputString.Length && outputString[..pos0] == Serialize(emitted0)
    modifies outputString
    ensures emitted == emitted0 + [Run(num, ch)]
    ensures pos == pos0 + 5 == 5 * |emitted| <= outputString.Length && outputString[..pos] == Serialize(emitted)
  {
    pos := WriteNext(outputString, pos0, num, ch, emitted0);
    emitted := emitted0 + [Run(num, ch)];
  }

  /** `output`: whatever nonempty record lists the workers left, the file written is their stitching, nothing is left
      pending after the last buffer, and the write pointer stays inside the allocated string. */
  method Output(results: seq<seq<Run>>, totalFileSize: nat) returns (file: seq<byte>)
    requires forall i :: 0 <= i < |results| ==> results[i] != []
    requires CountRuns(results) <= totalFileSize
    ensures file == Serialize(Stitch(results))
  {
    var listsize := |results|;
    var outputString := new byte[totalFileSize * 5];
    var pos, numTemp := 0, 0;
    var charTemp: byte := 0;
    ghost var emitted: seq<Run> := [];
    for i := 0 to listsize
      invariant i == 0 ==> emitted == [] && numTemp == 0
      invariant 0 < i < listsize ==> Stitch(results[..i]) == emitted + [Run(numTemp, charTemp)]
      invariant 0 < i == listsize ==> Stitch(results) == emitted
      invariant pos == 5 * |emitted| && |emitted| + (if 0 < i < listsize then 1 else 0) <= CountRuns(results[..i])
      invariant pos <= outputString.Length && outputString[..pos] == Serialize(emitted)
    {
      CountRunsTake(results, i);
      StitchTake(results, i);
      pos, numTemp, charTemp, emitted := OutputBuffer(results[i], i, listsize, outputString, pos, numTemp, charTemp,
        emitted, Stitch(results[..i]), CountRuns(results[..i]));
      assert results[i][..|results[i]|] == results[i];
      assert results[..listsize] == results;
    }
    file := outputString[..pos];
  }
}
