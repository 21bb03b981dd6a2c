/** initial-utilities/wzip/wzip.c: the streaming compressor. */
module Wzip {
  import opened Rle
  import opened Records

  /** The record list of the whole command line: even an empty input yields one record, of count zero. */
  function InputRuns(s: seq<byte>): seq<Run> {
    if s == [] then [Run(0, 0)] else Encode(s)
  }

  /** For an empty input the compressed file is five zero bytes. */
  lemma EmptyInput()
    ensures Serialize(InputRuns([])) == [0, 0, 0, 0, 0]
  {
    assert Serialize([]) == [];
    assert [Run(0, 0)][..0] == [];
    assert RecordBytes(Run(0, 0)) == [0, 0, 0, 0, 0];
  }

  /** The records already written when the input so far is `s`: all but the run still being counted. */
  function Flushed(s: seq<byte>): seq<Run> {
    var rs := Encode(s);
    if rs == [] then [] else rs[..|rs| - 1]
  }

  /** `main`: one pass over all files with a running count; the count is written when the character changes and
      once more at the end. */
  method Compress(files: seq<File>) returns (r: Outcome)
    ensures files == [] ==> r == Usage
    ensures files != [] && Missing !in files ==> r == Done(Serialize(InputRuns(Flatten(Readable(files)))))
    ensures Missing in files ==> r == CannotOpen(Serialize(Flushed(Flatten(Readable(files)))))
  {
    if files == [] {
      return Usage;
    }
    var written := [];
    var lastRead: byte, count := 0, 0;
    for i := 0 to |files|
      invariant Missing !in files[..i] && |Readable(files[..i])| == i
      invariant Streaming(Flatten(Readable(files[..i])), written, count, lastRead)
    {
      if files[i].Missing? {
        ReadableStops(files, i);
        return CannotOpen(written);
      }
      ReadableNext(files, i);
      written, count, lastRead := CompressFile(files[i].bytes, Flatten(Readable(files[..i])), written, count, lastRead);
    }
    assert files[..|files|] == files;
    FinalRecord(Flatten(Readable(files)), written, count, lastRead);
    return Done(written + RecordBytes(Run(count, lastRead)));
  }

  /** The `fread` loop over one file; `before` is the input of the earlier files. */
  method CompressFile(f: seq<byte>, ghost before: seq<byte>, written0: seq<byte>, count0: int, last0: byte)
    returns (written: seq<byte>, count: int, lastRead: byte)
    requires Streaming(before, written0, count0, last0)
    ensures Streaming(before + f, written, count, lastRead)
  {
    written, count, lastRead := written0, count0, last0;
    assert before + f[..0] == before;
    for p := 0 to |f|
      invariant Streaming(before + f[..p], written, count, lastRead)
    {
      StreamStep(before + f[..p], written, count, lastRead, f[p]);
      TakeSnoc(before, f, p);
      if f[p] == lastRead {
        count := count + 1;
      } else {
        if count > 0 {
          written := written + RecordBytes(Run(count, lastRead));
        }
        count := 1;
        lastRead := f[p];
      }
    }
    assert f[..|f|] == f;
  }

  /** The loop's variables against the input read so far. */
  ghost predicate Streaming(s: seq<byte>, written: seq<byte>, count: int, last: byte) {
    && written == Serialize(Flushed(s))
    && if s == [] then count == 0 && last == 0
       else count > 0 && Encode(s) == Flushed(s) + [Run(count, last)]
  }

  lemma StreamStep(s: seq<byte>, written: seq<byte>, count: int, last: byte, b: byte)
    requires Streaming(s, written, count, last)
    ensures b == last ==> Streaming(s + [b], written, count + 1, b)
    ensures b != last ==>
      Streaming(s + [b], if count > 0 then written + RecordBytes(Run(count, last)) else written, 1, b)
  {
    var t := s + [b];
    EncodeSnoc(s, b);
    if s != [] {
      var rs, r := Flushed(s), Run(count, last);
      EncodeNext(s, rs, r, b);
      SerializeSnoc(rs, r);
      FlushedIs(t, if b == last then rs else rs + [r], if b == last then Run(count + 1, b) else Run(1, b));
    } else {
      FlushedIs(t, [], Run(1, b));
    }
  }

  lemma FlushedIs(t: seq<byte>, rs: seq<Run>, r: Run)
    requires Encode(t) == rs + [r]
    ensures Flushed(t) == rs
  {
  }

  lemma FinalRecord(s: seq<byte>, written: seq<byte>, count: int, last: byte)
    requires Streaming(s, written, count, last)
    ensures written + RecordBytes(Run(count, last)) == Serialize(InputRuns(s))
  {
    SerializeSnoc(Flushed(s), Run(count, last));
  }
}
