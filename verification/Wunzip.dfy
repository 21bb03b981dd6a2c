/** initial-utilities/wunzip/wunzip.c: the decompressor, and the round trips with the compressor. */
module Wunzip {
  import opened Rle
  import opened Records
  import Wzip

  /** What one compressed file prints when `char_read` holds `stale` before it.  When the file ends right after a
      4-byte integer the second `fread` stores nothing, so the character of the record before it is repeated. */
  function Unzip(f: seq<byte>, stale: byte): seq<byte> {
    if |f| < 4 then []
    else if |f| == 4 then Repeat(BytesInt(f), stale)
    else Repeat(BytesInt(f[..4]), f[4]) + Unzip(f[5..], f[4])
  }

  /** What `char_read` holds after the file. */
  function CharAfter(f: seq<byte>, stale: byte): byte {
    if |f| < 5 then stale else CharAfter(f[5..], f[4])
  }

  /** Several compressed files in a row share `char_read`. */
  function UnzipAll(files: seq<seq<byte>>, stale: byte): seq<byte> {
    if files == [] then []
    else
      var front := files[..|files| - 1];
      UnzipAll(front, stale) + Unzip(files[|files| - 1], CharAfterAll(front, stale))
  }

  function CharAfterAll(files: seq<seq<byte>>, stale: byte): byte {
    if files == [] then stale
    else CharAfter(files[|files| - 1], CharAfterAll(files[..|files| - 1], stale))
  }

  /** `main`.  `garbage` is what the uninitialised `char_read` holds at the start. */
  method Decompress(files: seq<File>, garbage: byte) returns (r: Outcome)
    ensures files == [] ==> r == Usage
    ensures files != [] && Missing !in files ==> r == Done(UnzipAll(Readable(files), garbage))
    ensures Missing in files ==> r == CannotOpen(UnzipAll(Readable(files), garbage))
  {
    if files == [] {
      return Usage;
    }
    var written, charRead := [], garbage;
    for i := 0 to |files|
      invariant Missing !in files[..i] && |Readable(files[..i])| == i
      invariant written == UnzipAll(Readable(files[..i]), garbage)
      invariant charRead == CharAfterAll(Readable(files[..i]), garbage)
    {
      if files[i].Missing? {
        ReadableStops(files, i);
        return CannotOpen(written);
      }
      ReadableNext(files, i);
      assert Readable(files[..i + 1])[..i] == Readable(files[..i]);
      var out;
      out, charRead := DecompressFile(files[i].bytes, charRead);
      written := written + out;
    }
    assert files[..|files|] == files;
    return Done(written);
  }

  /** The two nested loops over one file: read a record, print its character `int_read` times. */
  method DecompressFile(f: seq<byte>, charRead0: byte) returns (written: seq<byte>, charRead: byte)
    ensures written == Unzip(f, charRead0) && charRead == CharAfter(f, charRead0)
  {
    written, charRead := [], charRead0;
    var pos := 0;
    assert f[0..] == f;
    while pos + 4 <= |f|
      invariant pos <= |f|
      invariant Unzip(f, charRead0) == written + Unzip(f[pos..], charRead)
      invariant CharAfter(f, charRead0) == CharAfter(f[pos..], charRead)
    {
      UnzipStep(f, pos, charRead);
      ghost var start := written;
      var intRead := BytesInt(f[pos..pos + 4]);
      pos := pos + 4;
      if pos < |f| {
        charRead := f[pos];
        pos := pos + 1;
      }
      written := PrintRun(written, intRead, charRead);
      Assoc(start, Repeat(intRead, charRead), Unzip(f[pos..], charRead));
    }
  }

  /** The inner `for` loop. */
  method PrintRun(written0: seq<byte>, intRead: int, charRead: byte) returns (written: seq<byte>)
    ensures written == written0 + Repeat(intRead, charRead)
  {
    written := written0;
    var j := 0;
    while j < intRead
      invariant 0 <= j && (j <= intRead || j == 0)
      invariant written == written0 + Repeat(j, charRead)
    {
      RepeatAdd(j, 1, charRead);
      assert Repeat(1, charRead) == [charRead];
      written := written + [charRead];
      j := j + 1;
    }
    assert Repeat(j, charRead) == Repeat(intRead, charRead);
  }

  /** One record of the file, seen from the read position. */
  lemma UnzipStep(f: seq<byte>, pos: nat, stale: byte)
    requires pos + 4 <= |f|
    ensures pos + 4 == |f| ==>
      Unzip(f[pos..], stale) == Repeat(BytesInt(f[pos..pos + 4]), stale) + Unzip(f[pos + 4..], stale)
    ensures pos + 4 < |f| ==>
      Unzip(f[pos..], stale) == Repeat(BytesInt(f[pos..pos + 4]), f[pos + 4]) + Unzip(f[pos + 5..], f[pos + 4])
    ensures pos + 4 == |f| ==> CharAfter(f[pos..], stale) == CharAfter(f[pos + 4..], stale)
    ensures pos + 4 < |f| ==> CharAfter(f[pos..], stale) == CharAfter(f[pos + 5..], f[pos + 4])
  {
    var rest := f[pos..];
    assert rest[..4] == f[pos..pos + 4];
    if pos + 4 < |f| {
      assert rest[5..] == f[pos + 5..];
    } else {
      assert rest == f[pos..pos + 4];
    }
  }

  /** A file that is a whole number of records prints the same whatever `char_read` held before, and splits from
      what follows it. */
  lemma {:induction false} UnzipAppend(a: seq<byte>, b: seq<byte>, stale: byte)
    requires |a| % 5 == 0
    ensures Unzip(a + b, stale) == Unzip(a, stale) + Unzip(b, CharAfter(a, stale))
    decreases |a|
  {
    if a == [] {
      assert a + b == b;
    } else {
      UnzipAppend(a[5..], b, a[4]);
      FirstRecord(a, b);
      Assoc(Repeat(BytesInt(a[..4]), a[4]), Unzip(a[5..], a[4]), Unzip(b, CharAfter(a, stale)));
    }
  }

  lemma FirstRecord(a: seq<byte>, b: seq<byte>)
    requires |a| >= 5
    ensures (a + b)[..4] == a[..4] && (a + b)[4] == a[4] && (a + b)[5..] == a[5..] + b
  {
  }

  /** The records as they read back: a count that does not fit a C int wraps around. */
  function Stored(rs: seq<Run>): (r: seq<Run>)
    ensures |r| == |rs|
    ensures forall i :: 0 <= i < |rs| ==> r[i] == Run(BytesInt(IntBytes(rs[i].count)), rs[i].ch)
  {
    seq(|rs|, i requires 0 <= i < |rs| => Run(BytesInt(IntBytes(rs[i].count)), rs[i].ch))
  }

  /** Decompressing a compressed file gives the bytes its records, as stored, stand for. */
  lemma {:induction false} UnzipSerialize(rs: seq<Run>, stale: byte)
    ensures Unzip(Serialize(rs), stale) == Expand(Stored(rs))
  {
    if rs == [] {
    } else {
      var front, r := rs[..|rs| - 1], rs[|rs| - 1];
      var prior := CharAfter(Serialize(front), stale);
      UnzipSerialize(front, stale);
      UnzipAppend(Serialize(front), RecordBytes(r), stale);
      UnzipOne(r, prior);
      StoredSnoc(rs);
      ExpandSnoc(Stored(front), Run(BytesInt(IntBytes(r.count)), r.ch));
    }
  }

  lemma UnzipOne(r: Run, stale: byte)
    ensures Unzip(RecordBytes(r), stale) == Repeat(BytesInt(IntBytes(r.count)), r.ch)
  {
    var f := RecordBytes(r);
    assert f[..4] == IntBytes(r.count) && f[5..] == [];
  }

  /** Any file is whole records and up to four bytes behind them.  Four bytes are a count without a character: the last
      character read is repeated.  Fewer are ignored. */
  lemma UnzipTail(rs: seq<Run>, tail: seq<byte>, stale: byte)
    requires |tail| < 5
    ensures var ch := if rs == [] then stale else rs[|rs| - 1].ch;
      && Unzip(Serialize(rs) + tail, stale)
         == Expand(Stored(rs)) + (if |tail| == 4 then Repeat(BytesInt(tail), ch) else [])
      && CharAfter(Serialize(rs) + tail, stale) == ch
  {
    UnzipAppend(Serialize(rs), tail, stale);
    UnzipSerialize(rs, stale);
    CharAppend(Serialize(rs), tail, stale);
    CharSerialize(rs, stale);
  }

  lemma {:induction false} CharAppend(a: seq<byte>, b: seq<byte>, stale: byte)
    requires |a| % 5 == 0
    ensures CharAfter(a + b, stale) == CharAfter(b, CharAfter(a, stale))
    decreases |a|
  {
    if a == [] {
      assert a + b == b;
    } else {
      CharAppend(a[5..], b, a[4]);
      FirstRecord(a, b);
    }
  }

  lemma CharSerialize(rs: seq<Run>, stale: byte)
    ensures CharAfter(Serialize(rs), stale) == if rs == [] then stale else rs[|rs| - 1].ch
  {
    if rs != [] {
      CharAppend(Serialize(rs[..|rs| - 1]), RecordBytes(rs[|rs| - 1]), stale);
    }
  }

  lemma StoredCount(n: nat)
    ensures BytesInt(IntBytes(n)) <= n
    ensures BytesInt(IntBytes(n)) == n <==> n < INT_LIMIT
  {
    if n < INT_LIMIT {
      IntRoundTrip(n);
    }
  }

  ghost predicate CountsFit(rs: seq<Run>) {
    forall i :: 0 <= i < |rs| ==> rs[i].count < INT_LIMIT
  }

  /** How many bytes the records stand for. */
  function Length(rs: seq<Run>): nat {
    if rs == [] then 0
    else Length(rs[..|rs| - 1]) + if rs[|rs| - 1].count > 0 then rs[|rs| - 1].count else 0
  }

  lemma {:induction false} LengthOf(rs: seq<Run>)
    ensures |Expand(rs)| == Length(rs)
  {
    if rs == [] {
    } else {
      LengthOf(rs[..|rs| - 1]);
    }
  }

  lemma LengthSnoc(front: seq<Run>, r: Run)
    ensures Length(front + [r]) == Length(front) + if r.count > 0 then r.count else 0
  {
    assert (front + [r])[..|front|] == front;
  }

  /** What reads back is never longer, and as long only if every count fits. */
  lemma {:induction false} StoredLength(rs: seq<Run>)
    requires forall i :: 0 <= i < |rs| ==> rs[i].count >= 0
    ensures Length(Stored(rs)) <= Length(rs)
    ensures Length(Stored(rs)) == Length(rs) ==> CountsFit(rs)
  {
    if rs == [] {
    } else {
      var n := |rs| - 1;
      StoredLength(rs[..n]);
      StoredCount(rs[n].count);
      StoredSnoc(rs);
      assert rs == rs[..n] + [rs[n]];
      LengthSnoc(rs[..n], rs[n]);
      LengthSnoc(Stored(rs[..n]), Stored(rs)[n]);
    }
  }

  lemma StoredSnoc(rs: seq<Run>)
    requires rs != []
    ensures var front, r := rs[..|rs| - 1], rs[|rs| - 1];
      Stored(rs) == Stored(front) + [Run(BytesInt(IntBytes(r.count)), r.ch)]
  {
  }

  lemma StoredFits(rs: seq<Run>)
    requires CountsFit(rs) && forall i :: 0 <= i < |rs| ==> rs[i].count >= 0
    ensures Stored(rs) == rs
  {
    forall i | 0 <= i < |rs| ensures Stored(rs)[i] == rs[i] {
      StoredCount(rs[i].count);
    }
  }

  lemma InputExpands(s: seq<byte>)
    ensures Expand(Wzip.InputRuns(s)) == s
    ensures forall i :: 0 <= i < |Wzip.InputRuns(s)| ==> Wzip.InputRuns(s)[i].count >= 0
    ensures CountsFit(Wzip.InputRuns(s)) <==> CountsFit(Encode(s))
  {
    if s == [] {
      ZeroRecord(Run(0, 0));
    } else {
      EncodeCorrect(s);
    }
  }

  lemma ZeroRecord(r: Run)
    requires r.count == 0
    ensures Expand([r]) == [] && Encode([]) == []
  {
    ExpandOne([r]);
  }

  /** The round trip through both programs: `wunzip` of what `wzip` wrote is the concatenation of the files, whatever
      `char_read` held, exactly when every run fits a C int.  The empty input is included. */
  lemma RoundTripExactly(files: seq<seq<byte>>, garbage: byte)
    ensures UnzipAll([Serialize(Wzip.InputRuns(Flatten(files)))], garbage) == Flatten(files)
            <==> CountsFit(Encode(Flatten(files)))
  {
    var s := Flatten(files);
    var rs := Wzip.InputRuns(s);
    InputExpands(s);
    UnzipAllSingle(Serialize(rs), garbage);
    UnzipSerialize(rs, garbage);
    StoredLength(rs);
    LengthOf(rs);
    LengthOf(Stored(rs));
    if CountsFit(rs) {
      StoredFits(rs);
    }
  }

  /** So every input shorter than 2^31 bytes comes back. */
  lemma ShortRoundTrip(files: seq<seq<byte>>, garbage: byte)
    requires |Flatten(files)| < INT_LIMIT
    ensures UnzipAll([Serialize(Wzip.InputRuns(Flatten(files)))], garbage) == Flatten(files)
  {
    EncodeCorrect(Flatten(files));
    RunBounded(Encode(Flatten(files)));
    RoundTripExactly(files, garbage);
  }

  lemma UnzipAllSingle(f: seq<byte>, stale: byte)
    ensures UnzipAll([f], stale) == Unzip(f, stale) && CharAfterAll([f], stale) == CharAfter(f, stale)
  {
    assert [f][..0] == [];
    assert [f][..|[f]| - 1] == [];
  }

  lemma UnzipAllPair(a: seq<byte>, b: seq<byte>, stale: byte)
    ensures UnzipAll([a, b], stale) == Unzip(a, stale) + Unzip(b, CharAfter(a, stale))
  {
    assert [a, b][..|[a, b]| - 1] == [a];
    UnzipAllSingle(a, stale);
  }

  /** Giving `wunzip` two files prints what giving it their concatenation prints, for every second file, exactly when
      the first file is a whole number of records. */
  lemma ConcatenationExactly(a: seq<byte>, stale: byte)
    ensures (forall b :: UnzipAll([a, b], stale) == UnzipAll([a + b], stale)) <==> |a| % 5 == 0
  {
    if |a| % 5 == 0 {
      forall b ensures UnzipAll([a, b], stale) == UnzipAll([a + b], stale) {
        UnzipAllPair(a, b, stale);
        UnzipAllSingle(a + b, stale);
        UnzipAppend(a, b, stale);
      }
    } else {
      var b: seq<byte> := [1, 0, 0, 0, 0];
      UnzipAllPair(a, b, stale);
      UnzipAllSingle(a + b, stale);
      TruncatedDiffers(a, stale);
      assert UnzipAll([a, b], stale) != UnzipAll([a + b], stale);
    }
  }

  /** Any number of files: when all but the last are whole numbers of records, giving them one by one prints what giving
      their concatenation prints. */
  lemma {:induction false} UnzipAllWhole(files: seq<seq<byte>>, last: seq<byte>, stale: byte)
    requires forall i :: 0 <= i < |files| ==> |files[i]| % 5 == 0
    ensures UnzipAll(files + [last], stale) == Unzip(Flatten(files) + last, stale)
    ensures CharAfterAll(files, stale) == CharAfter(Flatten(files), stale) && |Flatten(files)| % 5 == 0
  {
    assert (files + [last])[..|files|] == files;
    if files == [] {
      assert Flatten(files) + last == last;
    } else {
      var front, mid := files[..|files| - 1], files[|files| - 1];
      UnzipAllWhole(front, mid, stale);
      assert files == front + [mid];
      CharAppend(Flatten(front), mid, stale);
      UnzipAppend(Flatten(files), last, stale);
    }
  }

  /** The second file that tells a truncated first file apart: one record of one NUL. */
  lemma {:induction false} TruncatedDiffers(a: seq<byte>, stale: byte)
    requires |a| % 5 != 0
    ensures |Unzip(a + [1, 0, 0, 0, 0], stale)|
         != |Unzip(a, stale) + Unzip([1, 0, 0, 0, 0], CharAfter(a, stale))|
    decreases |a|
  {
    var b: seq<byte> := [1, 0, 0, 0, 0];
    if |a| > 5 {
      TruncatedDiffers(a[5..], a[4]);
      FirstRecord(a, b);
    } else {
      assert |Unzip(b, CharAfter(a, stale))| == 1 by {
        assert BytesInt(b[..4]) == 1;
      }
      var f := a + b;
      assert f[..4] == if |a| == 4 then a else a + b[..4 - |a|];
      assert |f[5..]| == |a|;
      if |a| == 4 {
        assert f[5..] == [0, 0, 0, 0];
        assert BytesInt(f[5..][..4]) == 0;
      } else {
        assert BytesInt(f[..4]) > 1;
      }
    }
  }
}
