/** The compressed file format: one 5-byte record per run, a 4-byte little-endian two's-complement integer
    followed by the character. */
module Records {
  import opened Rle

  const INT_LIMIT := 0x8000_0000  // one more than the largest C int

  /** A command-line argument: a readable file, or a name that cannot be opened. */
  datatype File = Missing | Contents(bytes: seq<byte>)

  /** How a command ends, with everything it wrote to standard output as compressed or decompressed data. */
  datatype Outcome = Usage | CannotOpen(written: seq<byte>) | Done(written: seq<byte>)

  /** The four bytes `fwrite(&n, sizeof(int), 1, f)` stores on a little-endian machine. */
  function IntBytes(n: int): (s: seq<byte>)
    ensures |s| == 4
  {
    var u := n % 0x1_0000_0000;
    [u % 0x100, u / 0x100 % 0x100, u / 0x100 / 0x100 % 0x100, u / 0x100 / 0x100 / 0x100]
  }

  /** The C int whose four stored bytes are `s`. */
  function BytesInt(s: seq<byte>): (n: int)
    requires |s| == 4
    ensures -INT_LIMIT <= n < INT_LIMIT
  {
    var u := s[0] as int + 0x100 * (s[1] as int) + 0x1_0000 * (s[2] as int) + 0x100_0000 * (s[3] as int);
    if u >= INT_LIMIT then u - 0x1_0000_0000 else u
  }

  function RecordBytes(r: Run): (s: seq<byte>)
    ensures |s| == 5
  {
    IntBytes(r.count) + [r.ch]
  }

  /** The compressed file that holds the records `rs`. */
  function Serialize(rs: seq<Run>): (s: seq<byte>)
    ensures |s| == 5 * |rs|
  {
    if rs == [] then [] else Serialize(rs[..|rs| - 1]) + RecordBytes(rs[|rs| - 1])
  }

  /** The contents of the files that come before the first one that cannot be opened. */
  function Readable(files: seq<File>): (r: seq<seq<byte>>)
    ensures |r| <= |files|
  {
    if files == [] then []
    else
      var before, last := Readable(files[..|files| - 1]), files[|files| - 1];
      if |before| < |files| - 1 || last.Missing? then before else before + [last.bytes]
  }

  lemma ReadableNext(files: seq<File>, i: nat)
    requires i < |files| && |Readable(files[..i])| == i && files[i].Contents?
    ensures Readable(files[..i + 1]) == Readable(files[..i]) + [files[i].bytes]
    ensures Flatten(Readable(files[..i + 1])) == Flatten(Readable(files[..i])) + files[i].bytes
  {
    assert files[..i + 1][..i] == files[..i];
  }

  lemma {:induction false} ReadableStops(files: seq<File>, i: nat)
    requires i < |files| && |Readable(files[..i])| == i && files[i].Missing?
    ensures Readable(files) == Readable(files[..i])
    decreases |files|
  {
    var n := |files| - 1;
    if i < n {
      assert files[..n][..i] == files[..i];
      ReadableStops(files[..n], i);
    }
  }

  lemma IntRoundTrip(n: int)
    requires -INT_LIMIT <= n < INT_LIMIT
    ensures BytesInt(IntBytes(n)) == n
  {
    var u := n % 0x1_0000_0000;
    assert u == if n < 0 then n + 0x1_0000_0000 else n;
    var v := u / 0x100;
    var w := v / 0x100;
    assert u == u % 0x100 + 0x100 * v && v == v % 0x100 + 0x100 * w && w == w % 0x100 + 0x100 * (w / 0x100);
  }

  lemma SerializeSnoc(x: seq<Run>, r: Run)
    ensures Serialize(x + [r]) == Serialize(x) + RecordBytes(r)
  {
    assert (x + [r])[..|x|] == x;
  }

  /** Records whose counts are C ints are recovered exactly from the file. */
  lemma {:induction false} SerializeInjective(x: seq<Run>, y: seq<Run>)
    requires forall i :: 0 <= i < |x| ==> -INT_LIMIT <= x[i].count < INT_LIMIT
    requires forall i :: 0 <= i < |y| ==> -INT_LIMIT <= y[i].count < INT_LIMIT
    requires Serialize(x) == Serialize(y)
    ensures x == y
  {
    if x == [] {
    } else {
      var n := |x| - 1;
      var sx, sy := Serialize(x), Serialize(y);
      assert sx[..5 * n] == Serialize(x[..n]) && sy[..5 * n] == Serialize(y[..n]);
      SerializeInjective(x[..n], y[..n]);
      assert sx[5 * n..] == RecordBytes(x[n]) && sy[5 * n..] == RecordBytes(y[n]);
      assert RecordBytes(x[n])[..4] == IntBytes(x[n].count) && RecordBytes(x[n])[4] == x[n].ch;
      assert RecordBytes(y[n])[..4] == IntBytes(y[n].count) && RecordBytes(y[n])[4] == y[n].ch;
      IntRoundTrip(x[n].count);
      IntRoundTrip(y[n].count);
      assert x == x[..n] + [x[n]] && y == y[..n] + [y[n]];
    }
  }
}
