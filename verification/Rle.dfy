/** Run-length encoding as a mathematical object: what a record list means, which record lists are canonical,
    and why a byte sequence has exactly one canonical record list.  Every compressor in the repository is proved
    against this module. */
module Rle {

  type byte = b: int | 0 <= b < 256

  /** One compressed record: `count` copies of the character `ch`. */
  datatype Run = Run(count: int, ch: byte)

  /** `n` copies of `b`; a count that is not positive stands for nothing, as in a `for (j = 0; j < n; j++)` loop. */
  function Repeat(n: int, b: byte): (s: seq<byte>)
    ensures |s| == if n > 0 then n else 0
    ensures forall i :: 0 <= i < |s| ==> s[i] == b
  {
    if n > 0 then seq(n, _ => b) else []
  }

  /** The bytes a record list stands for. */
  function Expand(rs: seq<Run>): seq<byte> {
    if rs == [] then [] else Expand(rs[..|rs| - 1]) + Repeat(rs[|rs| - 1].count, rs[|rs| - 1].ch)
  }

  /** Every run is nonempty and maximal. */
  ghost predicate Canonical(rs: seq<Run>) {
    && (forall i :: 0 <= i < |rs| ==> rs[i].count > 0)
    && (forall i :: 0 <= i < |rs| - 1 ==> rs[i].ch != rs[i + 1].ch)
  }

  /** Account for one more input byte at the end. */
  function Push(rs: seq<Run>, b: byte): seq<Run> {
    if rs != [] && rs[|rs| - 1].ch == b
    then rs[..|rs| - 1] + [Run(rs[|rs| - 1].count + 1, b)]
    else rs + [Run(1, b)]
  }

  /** The record list of `s`, built one byte at a time. */
  function Encode(s: seq<byte>): seq<Run> {
    if s == [] then [] else Push(Encode(s[..|s| - 1]), s[|s| - 1])
  }

  /** Glue two record lists: if the runs that meet have the same character they become one. */
  function Join(x: seq<Run>, y: seq<Run>): seq<Run> {
    if x != [] && y != [] && x[|x| - 1].ch == y[0].ch
    then x[..|x| - 1] + [Run(x[|x| - 1].count + y[0].count, y[0].ch)] + y[1..]
    else x + y
  }

  /** Glue a list of separately compressed chunks, from left to right. */
  function Stitch(chunks: seq<seq<Run>>): seq<Run> {
    if chunks == [] then [] else Join(Stitch(chunks[..|chunks| - 1]), chunks[|chunks| - 1])
  }

  /** Concatenation of a list of byte sequences. */
  function Flatten(ss: seq<seq<byte>>): seq<byte> {
    if ss == [] then [] else Flatten(ss[..|ss| - 1]) + ss[|ss| - 1]
  }

  /** Compress every chunk on its own. */
  function EncodeEach(ss: seq<seq<byte>>): (r: seq<seq<Run>>)
    ensures |r| == |ss|
    ensures forall i :: 0 <= i < |ss| ==> r[i] == Encode(ss[i])
  {
    seq(|ss|, i requires 0 <= i < |ss| => Encode(ss[i]))
  }

  lemma Assoc<T>(a: seq<T>, b: seq<T>, c: seq<T>)
    ensures (a + b) + c == a + (b + c)
  {
  }

  lemma TakeSnoc<T>(a: seq<T>, f: seq<T>, p: nat)
    requires p < |f|
    ensures a + f[..p + 1] == (a + f[..p]) + [f[p]]
  {
  }

  lemma {:induction false} FlattenAppend(x: seq<seq<byte>>, y: seq<seq<byte>>)
    ensures Flatten(x + y) == Flatten(x) + Flatten(y)
  {
    if y == [] {
      assert x + y == x;
    } else {
      FlattenAppend(x, y[..|y| - 1]);
      assert (x + y)[..|x + y| - 1] == x + y[..|y| - 1];
    }
  }

  lemma FlattenTake(ss: seq<seq<byte>>, k: nat)
    requires 0 < k <= |ss|
    ensures Flatten(ss[..k]) == Flatten(ss[..k - 1]) + ss[k - 1]
  {
    assert ss[..k][..k - 1] == ss[..k - 1];
  }

  lemma ExpandSnoc(x: seq<Run>, r: Run)
    ensures Expand(x + [r]) == Expand(x) + Repeat(r.count, r.ch)
  {
    assert (x + [r])[..|x|] == x;
  }

  lemma RepeatAdd(m: int, n: int, b: byte)
    requires m >= 0 && n >= 0
    ensures Repeat(m + n, b) == Repeat(m, b) + Repeat(n, b)
  {
  }

  lemma RepeatOne(b: byte)
    ensures Repeat(1, b) == [b]
  {
  }

  /** A run one longer stands for one more byte. */
  lemma LongerRunExpand(init: seq<Run>, r: Run)
    requires r.count >= 0
    ensures Expand(init + [Run(r.count + 1, r.ch)]) == Expand(init + [r]) + [r.ch]
  {
    ExpandSnoc(init, r);
    ExpandSnoc(init, Run(r.count + 1, r.ch));
    RepeatAdd(r.count, 1, r.ch);
    RepeatOne(r.ch);
    Assoc(Expand(init), Repeat(r.count, r.ch), [r.ch]);
  }

  lemma NewRunExpand(rs: seq<Run>, b: byte)
    ensures Expand(rs + [Run(1, b)]) == Expand(rs) + [b]
  {
    ExpandSnoc(rs, Run(1, b));
    RepeatOne(b);
  }

  lemma PushCanonical(rs: seq<Run>, b: byte)
    requires Canonical(rs)
    ensures Canonical(Push(rs, b)) && |Push(rs, b)| <= |rs| + 1
  {
  }

  lemma PushCorrect(rs: seq<Run>, b: byte)
    requires Canonical(rs)
    ensures Canonical(Push(rs, b)) && |Push(rs, b)| <= |rs| + 1
    ensures Expand(Push(rs, b)) == Expand(rs) + [b]
  {
    PushCanonical(rs, b);
    if rs != [] && rs[|rs| - 1].ch == b {
      LongerRunExpand(rs[..|rs| - 1], rs[|rs| - 1]);
      SnocEta(rs);
    } else {
      NewRunExpand(rs, b);
    }
  }

  lemma EncodeSnoc(s: seq<byte>, b: byte)
    ensures Encode(s + [b]) == Push(Encode(s), b)
  {
    assert (s + [b])[..|s|] == s;
  }

  /** One more byte after a list whose last run is known. */
  lemma EncodeNext(s: seq<byte>, rs: seq<Run>, r: Run, b: byte)
    requires Encode(s) == rs + [r]
    ensures Encode(s + [b]) == if b == r.ch then rs + [Run(r.count + 1, b)] else (rs + [r]) + [Run(1, b)]
  {
    EncodeSnoc(s, b);
    assert (rs + [r])[..|rs|] == rs;
  }

  /** `Encode` inverts `Expand`, and its runs are maximal. */
  lemma {:induction false} EncodeCorrect(s: seq<byte>)
    ensures Canonical(Encode(s))
    ensures Expand(Encode(s)) == s
    ensures |Encode(s)| <= |s|
  {
    if s == [] {
    } else {
      EncodeCorrect(s[..|s| - 1]);
      PushCorrect(Encode(s[..|s| - 1]), s[|s| - 1]);
      SnocEta(s);
    }
  }

  /** If one canonical list ends in a shorter run of the same character than another, their expansions differ. */
  lemma LongerLastRunDiffers(x: seq<Run>, y: seq<Run>)
    requires Canonical(x) && Canonical(y) && x != [] && y != []
    requires x[|x| - 1].ch == y[|y| - 1].ch && x[|x| - 1].count < y[|y| - 1].count
    ensures Expand(x) != Expand(y)
  {
    var k := x[|x| - 1].count;
    var ex, ey := Expand(x), Expand(y);
    if |ex| > k && |ex| == |ey| {
      assert |x| > 1;
      var front := Expand(x[..|x| - 1]);
      assert ex[|ex| - 1 - k] == front[|front| - 1] == x[|x| - 2].ch;
      assert ey[|ey| - 1 - k] == y[|y| - 1].ch;
    }
  }

  /** A byte sequence has at most one canonical record list. */
  lemma {:induction false} CanonicalUnique(x: seq<Run>, y: seq<Run>)
    requires Canonical(x) && Canonical(y)
    requires Expand(x) == Expand(y)
    ensures x == y
  {
    assert x != [] ==> |Expand(x)| > 0;
    assert y != [] ==> |Expand(y)| > 0;
    if x != [] && y != [] {
      var ex, ey := Expand(x), Expand(y);
      var p, q := x[|x| - 1], y[|y| - 1];
      assert ex[|ex| - 1] == p.ch && ey[|ey| - 1] == q.ch;
      if p.count < q.count {
        LongerLastRunDiffers(x, y);
      } else if q.count < p.count {
        LongerLastRunDiffers(y, x);
      }
      assert p == q;
      var fx, fy := x[..|x| - 1], y[..|y| - 1];
      assert ex[..|ex| - p.count] == Expand(fx);
      assert ey[..|ey| - q.count] == Expand(fy);
      CanonicalUnique(fx, fy);
      assert x == fx + [p] && y == fy + [q];
    }
  }

  /** Gluing a list that is extended at its end. */
  lemma JoinSnoc(x: seq<Run>, y: seq<Run>, r: Run)
    requires y != []
    ensures Join(x, y + [r]) == Join(x, y) + [r]
  {
    assert (y + [r])[0] == y[0];
    assert (y + [r])[1..] == y[1..] + [r];
  }

  lemma JoinOneExpand(x: seq<Run>, r: Run)
    requires r.count >= 0 && (x != [] ==> x[|x| - 1].count >= 0)
    ensures Expand(Join(x, [r])) == Expand(x) + Repeat(r.count, r.ch)
  {
    if x != [] && x[|x| - 1].ch == r.ch {
      GlueExpand(x[..|x| - 1], x[|x| - 1], r);
      SnocEta(x);
    } else {
      assert Join(x, [r]) == x + [r];
      ExpandSnoc(x, r);
    }
  }

  lemma SnocEta<T>(x: seq<T>)
    requires x != []
    ensures x == x[..|x| - 1] + [x[|x| - 1]]
  {
  }

  lemma GlueExpand(init: seq<Run>, last: Run, r: Run)
    requires r.count >= 0 && last.count >= 0 && last.ch == r.ch
    ensures Join(init + [last], [r]) == init + [Run(last.count + r.count, r.ch)]
    ensures Expand(init + [Run(last.count + r.count, r.ch)]) == Expand(init + [last]) + Repeat(r.count, r.ch)
  {
    assert (init + [last])[..|init|] == init;
    ExpandSnoc(init, last);
    ExpandSnoc(init, Run(last.count + r.count, r.ch));
    RepeatAdd(last.count, r.count, r.ch);
    Assoc(Expand(init), Repeat(last.count, r.ch), Repeat(r.count, r.ch));
  }

  lemma ExpandOne(y: seq<Run>)
    requires |y| == 1
    ensures y == [y[0]] && Expand(y) == Repeat(y[0].count, y[0].ch)
  {
    assert y[..0] == [];
  }

  lemma JoinExpandMore(x: seq<Run>, front: seq<Run>, r: Run)
    requires front != [] && Expand(Join(x, front)) == Expand(x) + Expand(front)
    ensures Expand(Join(x, front + [r])) == Expand(x) + Expand(front + [r])
  {
    JoinSnoc(x, front, r);
    ExpandSnoc(Join(x, front), r);
    ExpandSnoc(front, r);
    Assoc(Expand(x), Expand(front), Repeat(r.count, r.ch));
  }

  lemma {:induction false} JoinExpand(x: seq<Run>, y: seq<Run>)
    requires forall i :: 0 <= i < |x| ==> x[i].count >= 0
    requires forall i :: 0 <= i < |y| ==> y[i].count >= 0
    ensures Expand(Join(x, y)) == Expand(x) + Expand(y)
  {
    if y == [] {
      assert Join(x, y) == x;
    } else if |y| == 1 {
      ExpandOne(y);
      JoinOneExpand(x, y[0]);
    } else {
      SnocEta(y);
      JoinExpand(x, y[..|y| - 1]);
      JoinExpandMore(x, y[..|y| - 1], y[|y| - 1]);
    }
  }

  lemma JoinCanonical(x: seq<Run>, y: seq<Run>)
    requires Canonical(x) && Canonical(y)
    ensures Canonical(Join(x, y))
  {
    var j := Join(x, y);
    if x != [] && y != [] && x[|x| - 1].ch == y[0].ch {
      var n := |x| - 1;
      assert forall i :: 0 <= i < n ==> j[i] == x[i];
      assert forall i :: n < i < |j| ==> j[i] == y[i - n];
    }
  }

  /** Compressing two pieces separately and gluing is compressing the whole. */
  lemma EncodeAppend(a: seq<byte>, b: seq<byte>)
    ensures Encode(a + b) == Join(Encode(a), Encode(b))
  {
    EncodeCorrect(a);
    EncodeCorrect(b);
    EncodeCorrect(a + b);
    JoinExpand(Encode(a), Encode(b));
    JoinCanonical(Encode(a), Encode(b));
    CanonicalUnique(Encode(a + b), Join(Encode(a), Encode(b)));
  }

  /** Chunking does not matter: however the input is cut, stitching the separately compressed chunks gives the
      canonical record list of the whole. */
  lemma {:induction false} StitchCorrect(ss: seq<seq<byte>>)
    ensures Stitch(EncodeEach(ss)) == Encode(Flatten(ss))
  {
    if ss == [] {
    } else {
      var front := ss[..|ss| - 1];
      StitchCorrect(front);
      assert EncodeEach(ss)[..|ss| - 1] == EncodeEach(front);
      EncodeAppend(Flatten(front), ss[|ss| - 1]);
    }
  }

  /** No run is longer than the input. */
  lemma {:induction false} RunBounded(rs: seq<Run>)
    requires Canonical(rs)
    ensures forall i :: 0 <= i < |rs| ==> rs[i].count <= |Expand(rs)|
  {
    if rs == [] {
    } else {
      RunBounded(rs[..|rs| - 1]);
    }
  }
}
