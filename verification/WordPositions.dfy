/** Where in a file the words are that concurrency-mapreduce/wordcount.c emits, byte by byte, also for files with NUL
    bytes. */
module WordPositions {
  import opened Rle
  import opened WordCount

  /** `strsep` sees the byte: no NUL comes before it on its line. */
  ghost predicate Seen(file: seq<byte>, p: nat)
    requires p < |file|
  {
    forall j :: 0 <= j <= p && file[j] == 0 ==> exists k :: j < k < p && file[k] == 10
  }

  /** The byte belongs to a word: it is seen and is none of tab, newline, carriage return and space. */
  ghost predicate Shown(file: seq<byte>, p: nat)
    requires p < |file|
  {
    Seen(file, p) && file[p] !in {9, 10, 13, 32}
  }

  /** The file with every byte that is not seen made a newline. */
  ghost function Blanked(file: seq<byte>): (s: seq<byte>)
    ensures |s| == |file|
    ensures forall p :: 0 <= p < |file| ==> s[p] == if Seen(file, p) then file[p] else NEWLINE
  {
    seq(|file|, p requires 0 <= p < |file| => if Seen(file, p) then file[p] else NEWLINE)
  }

  // ---- the tokens are the words of the blanked file

  /** What follows a line does not change what is seen of it. */
  lemma SeenInLine(line: seq<byte>, rest: seq<byte>, p: nat)
    requires p < |line|
    ensures Seen(line + rest, p) <==> Seen(line, p)
  {
    var file := line + rest;
    assert forall j :: 0 <= j <= p ==> file[j] == line[j];
  }

  /** A newline ends what a NUL hides. */
  lemma SeenAfterLine(line: seq<byte>, rest: seq<byte>, p: nat)
    requires line != [] && line[|line| - 1] == NEWLINE && p < |rest|
    ensures Seen(line + rest, |line| + p) <==> Seen(rest, p)
  {
    var file, n := line + rest, |line|;
    if Seen(file, n + p) {
      forall j | 0 <= j <= p && rest[j] == 0 ensures exists k :: j < k < p && rest[k] == 10 {
        assert file[n + j] == 0;
        var k :| n + j < k < n + p && file[k] == 10;
        assert rest[k - n] == 10;
      }
    }
    if Seen(rest, p) {
      forall j | 0 <= j <= n + p && file[j] == 0 ensures exists k :: j < k < n + p && file[k] == 10 {
        SeenAfter(line, rest, p, j);
      }
    }
  }

  lemma SeenAfter(line: seq<byte>, rest: seq<byte>, p: nat, j: nat)
    requires line != [] && line[|line| - 1] == NEWLINE && p < |rest| && Seen(rest, p)
    requires j <= |line| + p && (line + rest)[j] == 0
    ensures exists k :: j < k < |line| + p && (line + rest)[k] == 10
  {
    var file, n := line + rest, |line|;
    if j < n {
      assert file[n - 1] == 10;
    } else {
      assert rest[j - n] == 0;
      var k :| j - n < k < p && rest[k] == 10;
      assert file[n + k] == 10;
    }
  }

  lemma BlankedSplit(line: seq<byte>, rest: seq<byte>)
    requires line != [] && line[|line| - 1] == NEWLINE
    ensures Blanked(line + rest) == Blanked(line) + Blanked(rest)
  {
    forall p | 0 <= p < |line + rest| ensures Blanked(line + rest)[p] == (Blanked(line) + Blanked(rest))[p] {
      if p < |line| {
        SeenInLine(line, rest, p);
      } else {
        SeenAfterLine(line, rest, p - |line|);
      }
    }
  }

  /** One line: the C string, then newlines. */
  lemma BlankedLine(line: seq<byte>)
    requires line != [] && NEWLINE !in line[..|line| - 1]
    ensures CPrefix(line) <= Blanked(line)
    ensures forall p :: |CPrefix(line)| <= p < |line| ==> Blanked(line)[p] == NEWLINE
  {
    var t := CPrefix(line);
    forall p | 0 <= p < |t| ensures Blanked(line)[p] == t[p] {
      forall j | 0 <= j <= p ensures line[j] != 0 {
        assert t[j] in t;
      }
    }
    forall p | |t| <= p < |line| ensures !Seen(line, p) {
      forall k | 0 <= k < p ensures line[k] != 10 {
        assert line[..|line| - 1][k] in line[..|line| - 1];
      }
    }
  }

  lemma {:induction false} WordsOfBlanks(d: seq<byte>)
    requires forall i :: 0 <= i < |d| ==> d[i] == NEWLINE
    ensures Words(d) == []
  {
    if d == [] {
    } else {
      WordsOfBlanks(d[1..]);
    }
  }

  /** Newlines at the end add no word. */
  lemma {:induction false} WordsThenBlanks(x: seq<byte>, d: seq<byte>)
    requires forall i :: 0 <= i < |d| ==> d[i] == NEWLINE
    ensures Words(x + d) == Words(x)
    decreases |x|
  {
    if d == [] {
      assert x + d == x;
    } else if x == [] {
      assert x + d == d;
      WordsOfBlanks(d);
    } else if IsDelimiter(x[0]) {
      assert (x + d)[1..] == x[1..] + d;
      WordsThenBlanks(x[1..], d);
    } else {
      var n := WordLength(x);
      LengthThenBlank(x, d);
      assert (x + d)[..n] == x[..n] && (x + d)[n..] == x[n..] + d;
      WordsThenBlanks(x[n..], d);
    }
  }

  lemma {:induction false} LengthThenBlank(x: seq<byte>, d: seq<byte>)
    requires d != [] && d[0] == NEWLINE
    ensures WordLength(x + d) == WordLength(x)
    decreases |x|
  {
    if x == [] {
      assert x + d == d;
    } else if !IsDelimiter(x[0]) {
      assert (x + d)[1..] == x[1..] + d;
      LengthThenBlank(x[1..], d);
    }
  }

  lemma WordsOfPrefix(t: seq<byte>, s: seq<byte>)
    requires t <= s && forall p :: |t| <= p < |s| ==> s[p] == NEWLINE
    ensures Words(s) == Words(t)
  {
    assert s == t + s[|t|..];
    WordsThenBlanks(t, s[|t|..]);
  }

  lemma {:induction false} LineHasOneNewline(s: seq<byte>)
    requires s != []
    ensures NEWLINE !in s[..LineLength(s) - 1]
  {
    if s[0] != NEWLINE && s[1..] != [] {
      LineHasOneNewline(s[1..]);
      assert s[..LineLength(s) - 1] == [s[0]] + s[1..][..LineLength(s[1..]) - 1];
    }
  }

  lemma LineWords(line: seq<byte>)
    requires line != [] && NEWLINE !in line[..|line| - 1]
    ensures Words(Blanked(line)) == Words(CPrefix(line))
  {
    BlankedLine(line);
    WordsOfPrefix(CPrefix(line), Blanked(line));
  }

  /** What `Map` emits are the words of the file with the unseen bytes blanked. */
  lemma {:induction false} TokensOfBlanked(file: seq<byte>)
    ensures Tokens(file) == Words(Blanked(file))
    decreases |file|
  {
    if file == [] {
    } else {
      var n := LineLength(file);
      var line, rest := file[..n], file[n..];
      assert file == line + rest;
      LineHasOneNewline(file);
      assert line[..|line| - 1] == file[..n - 1];
      LineWords(line);
      TokensOfBlanked(rest);
      if rest == [] {
        assert line == file;
      } else {
        BlankedSplit(line, rest);
        BlankedEnd(line);
        WordsSplit(Blanked(line), Blanked(rest));
      }
    }
  }

  lemma BlankedEnd(line: seq<byte>)
    requires line != [] && line[|line| - 1] == NEWLINE
    ensures Blanked(line)[|line| - 1] == NEWLINE
  {
  }

  // ---- positions

  ghost predicate Covers(span: (nat, nat), p: nat) {
    span.0 <= p < span.1
  }

  lemma DelimiterExactly(file: seq<byte>, p: nat)
    requires p < |file|
    ensures !IsDelimiter(Blanked(file)[p]) <==> Shown(file, p)
    ensures Shown(file, p) ==> Blanked(file)[p] == file[p]
  {
  }

  lemma {:induction false} TextsAre(s: seq<byte>, spans: seq<(nat, nat)>)
    requires forall k :: 0 <= k < |spans| ==> spans[k].0 < spans[k].1 <= |s|
    ensures |Texts(s, spans)| == |spans|
    ensures forall k :: 0 <= k < |spans| ==> Texts(s, spans)[k] == s[spans[k].0..spans[k].1]
  {
    if spans == [] {
    } else {
      TextsAre(s, spans[1..]);
    }
  }

  /** Every position of a word lies in a span. */
  lemma {:induction false} SpanOf(s: seq<byte>, at: nat, p: nat) returns (k: nat)
    requires Boundary(s, at) && at <= p < |s| && !IsDelimiter(s[p])
    ensures k < |Spans(s, at)| && Covers(Spans(s, at)[k], p)
    decreases |s| - at
  {
    if IsDelimiter(s[at]) {
      k := SpanOf(s, at + 1, p);
    } else {
      WordEnds(s, at);
      var end := at + WordLength(s[at..]);
      if p < end {
        k := 0;
      } else {
        var l := SpanOf(s, end, p);
        k := l + 1;
      }
    }
  }

  lemma SpanIsWord(s: seq<byte>, k: nat)
    requires k < |Spans(s, 0)|
    ensures IsWordAt(s, Spans(s, 0)[k].0, Spans(s, 0)[k].1)
  {
    var span := Spans(s, 0)[k];
    assert span in Spans(s, 0);
    SpansExact(s, 0, span.0, span.1);
  }

  /** The words are these stretches of the file, in order and with a gap between any two, and the stretches cover
      exactly the bytes that belong to words. */
  ghost predicate Places(file: seq<byte>, spans: seq<(nat, nat)>, words: seq<seq<byte>>) {
    && |spans| == |words|
    && (forall k :: 0 <= k < |spans| ==>
          spans[k].0 < spans[k].1 <= |file| && words[k] == file[spans[k].0..spans[k].1])
    && Apart(spans)
    && (forall p :: 0 <= p < |file| ==> (Covered(spans, p) <==> Shown(file, p)))
  }

  ghost predicate Apart(spans: seq<(nat, nat)>) {
    forall k, l :: 0 <= k < l < |spans| ==> spans[k].1 < spans[l].0
  }

  ghost predicate Covered(spans: seq<(nat, nat)>, p: nat) {
    exists k :: 0 <= k < |spans| && Covers(spans[k], p)
  }

  lemma SpanShown(file: seq<byte>, k: nat)
    requires k < |Spans(Blanked(file), 0)|
    ensures var span := Spans(Blanked(file), 0)[k];
      span.0 < span.1 <= |file| && forall p :: span.0 <= p < span.1 ==> Shown(file, p) && Blanked(file)[p] == file[p]
  {
    var span := Spans(Blanked(file), 0)[k];
    SpanIsWord(Blanked(file), k);
    forall p | span.0 <= p < span.1 ensures Shown(file, p) && Blanked(file)[p] == file[p] {
      DelimiterExactly(file, p);
    }
  }

  lemma CoveredExactly(file: seq<byte>, p: nat)
    requires p < |file|
    ensures Covered(Spans(Blanked(file), 0), p) <==> Shown(file, p)
  {
    var spans := Spans(Blanked(file), 0);
    if Shown(file, p) {
      DelimiterExactly(file, p);
      var k := SpanOf(Blanked(file), 0, p);
      assert Covers(spans[k], p);
    }
    if k :| 0 <= k < |spans| && Covers(spans[k], p) {
      SpanShown(file, k);
    }
  }

  lemma SpansApart(s: seq<byte>)
    ensures Apart(Spans(s, 0))
  {
    var spans := Spans(s, 0);
    SpansOrdered(s, 0);
    forall k, l | 0 <= k < l < |spans| ensures spans[k].1 < spans[l].0 {
      SpanIsWord(s, k);
      SpanIsWord(s, l);
    }
  }

  lemma TokensAreTexts(file: seq<byte>)
    ensures Tokens(file) == Texts(Blanked(file), Spans(Blanked(file), 0))
  {
    TokensOfBlanked(file);
    WordsAreTexts(Blanked(file), 0);
    assert Blanked(file)[0..] == Blanked(file);
  }

  lemma SameSlice(s: seq<byte>, t: seq<byte>, a: nat, b: nat)
    requires a <= b <= |s| == |t| && forall p :: a <= p < b ==> s[p] == t[p]
    ensures s[a..b] == t[a..b]
  {
  }

  lemma TextAt(file: seq<byte>, spans: seq<(nat, nat)>, k: nat)
    requires spans == Spans(Blanked(file), 0) && k < |spans|
    ensures spans[k].0 < spans[k].1 <= |file|
    ensures Blanked(file)[spans[k].0..spans[k].1] == file[spans[k].0..spans[k].1]
  {
    SpanShown(file, k);
    SameSlice(Blanked(file), file, spans[k].0, spans[k].1);
  }

  lemma TokensAt(file: seq<byte>, spans: seq<(nat, nat)>)
    requires spans == Spans(Blanked(file), 0)
    ensures |spans| == |Tokens(file)|
    ensures forall k :: 0 <= k < |spans| ==>
      spans[k].0 < spans[k].1 <= |file| && Tokens(file)[k] == file[spans[k].0..spans[k].1]
  {
    forall k | 0 <= k < |spans|
      ensures spans[k].0 < spans[k].1 <= |file|
      ensures Blanked(file)[spans[k].0..spans[k].1] == file[spans[k].0..spans[k].1]
    {
      TextAt(file, spans, k);
    }
    TokensAreTexts(file);
    TextsAre(Blanked(file), spans);
  }

  /** What `Map` emits for any file, by position. */
  lemma EmittedWords(file: seq<byte>) returns (spans: seq<(nat, nat)>)
    ensures Places(file, spans, Tokens(file))
  {
    spans := Spans(Blanked(file), 0);
    TokensAt(file, spans);
    SpansApart(Blanked(file));
    forall p | 0 <= p < |file| ensures Covered(spans, p) <==> Shown(file, p) {
      CoveredExactly(file, p);
    }
  }

  lemma NulHides(file: seq<byte>, p: nat)
    requires p < |file|
    ensures file[p] == 0 ==> !Seen(file, p)
  {
  }

  /** No word that `Map` emits holds one of the four delimiters or a NUL. */
  lemma NoDelimiterEmitted(file: seq<byte>, w: seq<byte>, c: byte)
    requires w in Tokens(file) && c in w
    ensures c != 9 && c != 10 && c != 13 && c != 32 && c != 0
  {
    var spans := EmittedWords(file);
    var k :| 0 <= k < |Tokens(file)| && Tokens(file)[k] == w;
    var i :| 0 <= i < |w| && w[i] == c;
    ByteOfWord(file, spans, Tokens(file), k, i);
  }

  lemma ByteOfWord(file: seq<byte>, spans: seq<(nat, nat)>, words: seq<seq<byte>>, k: nat, i: nat)
    requires Places(file, spans, words) && k < |words| && i < |words[k]|
    ensures words[k][i] !in {0, 9, 10, 13, 32}
  {
    var p := spans[k].0 + i;
    assert Covers(spans[k], p) && Covered(spans, p) && file[p] == words[k][i];
    NulHides(file, p);
  }

  /** Two bytes that belong to words belong to the same word exactly when none of the four delimiters stands between
      them. */
  lemma SameWordExactly(file: seq<byte>, spans: seq<(nat, nat)>, words: seq<seq<byte>>, p: nat, q: nat)
    requires Places(file, spans, words) && p <= q < |file| && Shown(file, p) && Shown(file, q)
    ensures (exists k :: 0 <= k < |spans| && Covers(spans[k], p) && Covers(spans[k], q)) <==>
            forall i :: p <= i <= q ==> file[i] !in {9, 10, 13, 32}
  {
    if k :| 0 <= k < |spans| && Covers(spans[k], p) && Covers(spans[k], q) {
      forall i | p <= i <= q ensures file[i] !in {9, 10, 13, 32} {
        assert Covers(spans[k], i) && Covered(spans, i);
      }
    }
    if forall i :: p <= i <= q ==> file[i] !in {9, 10, 13, 32} {
      assert Covered(spans, p);
      var k :| 0 <= k < |spans| && Covers(spans[k], p);
      forall i | p <= i <= q ensures Shown(file, i) {
        BetweenShown(file, p, i, q);
      }
      CoversOn(file, spans, words, k, p, q);
    }
  }

  lemma BetweenShown(file: seq<byte>, p: nat, b: nat, q: nat)
    requires p <= b <= q < |file| && Shown(file, q) && forall i :: p <= i <= q ==> file[i] !in {9, 10, 13, 32}
    ensures Shown(file, b)
  {
    forall j | 0 <= j <= b && file[j] == 0 ensures exists k :: j < k < b && file[k] == 10 {
      var k :| j < k < q && file[k] == 10;
      assert k < p;
    }
  }

  /** A span goes on as far as bytes belong to words. */
  lemma {:induction false} CoversOn(file: seq<byte>, spans: seq<(nat, nat)>, words: seq<seq<byte>>, k: nat, p: nat,
                                    q: nat)
    requires Places(file, spans, words) && k < |spans| && Covers(spans[k], p)
    requires p <= q < |file| && forall i :: p <= i <= q ==> Shown(file, i)
    ensures Covers(spans[k], q)
    decreases q
  {
    if q == p {
    } else {
      CoversOn(file, spans, words, k, p, q - 1);
      assert Covered(spans, q);
      var l :| 0 <= l < |spans| && Covers(spans[l], q);
    }
  }
}
