/** concurrency-mapreduce/wordcount.c, with the cursor functions of mapreduce.c it drives: tokenising a file, draining a
    key, and reducing a partition. */
module WordCount {
  import opened Rle
  import opened CString
  import opened MapReduce

  const NUL: byte := 0
  const NEWLINE: byte := 10

  /** The characters `strsep` cuts at: space, tab, newline, carriage return. */
  predicate IsDelimiter(c: byte) {
    c == 32 || c == 9 || c == 10 || c == 13
  }

  // ---- the words of a text

  /** The length of the delimiter-free prefix. */
  function WordLength(s: seq<byte>): (n: nat)
    ensures n <= |s|
    ensures forall i :: 0 <= i < n ==> !IsDelimiter(s[i])
    ensures n < |s| ==> IsDelimiter(s[n])
  {
    if s == [] || IsDelimiter(s[0]) then 0 else 1 + WordLength(s[1..])
  }

  /** The words of a text, in order. */
  function Words(s: seq<byte>): seq<seq<byte>> {
    if s == [] then []
    else if IsDelimiter(s[0]) then Words(s[1..])
    else
      var n := WordLength(s);
      [s[..n]] + Words(s[n..])
  }

  /** `[a..b)` is a maximal delimiter-free stretch of `s`. */
  ghost predicate IsWordAt(s: seq<byte>, a: nat, b: nat) {
    && a < b <= |s|
    && (forall i :: a <= i < b ==> !IsDelimiter(s[i]))
    && (a == 0 || IsDelimiter(s[a - 1]))
    && (b == |s| || IsDelimiter(s[b]))
  }

  /** Where the words from position `at` on are. */
  function Spans(s: seq<byte>, at: nat): seq<(nat, nat)>
    requires at <= |s|
    decreases |s| - at
  {
    if at == |s| then []
    else if IsDelimiter(s[at]) then Spans(s, at + 1)
    else
      var n := WordLength(s[at..]);
      [(at, at + n)] + Spans(s, at + n)
  }

  /** A position where a scan for words can start: not in the middle of a word. */
  ghost predicate Boundary(s: seq<byte>, at: nat) {
    at <= |s| && (at == 0 || at == |s| || IsDelimiter(s[at]) || IsDelimiter(s[at - 1]))
  }

  /** The spans are exactly the maximal delimiter-free stretches. */
  lemma {:induction false} SpansExact(s: seq<byte>, at: nat, a: nat, b: nat)
    requires Boundary(s, at)
    ensures (a, b) in Spans(s, at) <==> at <= a && IsWordAt(s, a, b)
    decreases |s| - at
  {
    if at == |s| {
    } else if IsDelimiter(s[at]) {
      SpansExact(s, at + 1, a, b);
      SpansDelimiter(s, at, a, b);
    } else {
      WordEnds(s, at);
      SpansExact(s, at + WordLength(s[at..]), a, b);
      SpansWord(s, at, a, b);
    }
  }

  lemma SpansDelimiter(s: seq<byte>, at: nat, a: nat, b: nat)
    requires at < |s| && IsDelimiter(s[at])
    requires (a, b) in Spans(s, at + 1) <==> at + 1 <= a && IsWordAt(s, a, b)
    ensures (a, b) in Spans(s, at) <==> at <= a && IsWordAt(s, a, b)
  {
  }

  lemma SpansWord(s: seq<byte>, at: nat, a: nat, b: nat)
    requires at < |s| && !IsDelimiter(s[at]) && IsWordAt(s, at, at + WordLength(s[at..]))
    requires var end := at + WordLength(s[at..]);
      (a, b) in Spans(s, end) <==> end <= a && IsWordAt(s, a, b)
    ensures (a, b) in Spans(s, at) <==> at <= a && IsWordAt(s, a, b)
  {
    SpansAt(s, at);
    NextSpan(s, at, at + WordLength(s[at..]), a, b);
  }

  lemma SpansAt(s: seq<byte>, at: nat)
    requires at < |s| && !IsDelimiter(s[at])
    ensures Spans(s, at) == [(at, at + WordLength(s[at..]))] + Spans(s, at + WordLength(s[at..]))
  {
  }

  lemma NextSpan(s: seq<byte>, at: nat, end: nat, a: nat, b: nat)
    requires IsWordAt(s, at, end)
    ensures at <= a && IsWordAt(s, a, b) <==> (a, b) == (at, end) || (end <= a && IsWordAt(s, a, b))
  {
    if at <= a <= end && IsWordAt(s, a, b) {
      OneWord(s, at, end, a, b);
    }
  }

  lemma WordEnds(s: seq<byte>, at: nat)
    requires Boundary(s, at) && at < |s| && !IsDelimiter(s[at])
    ensures IsWordAt(s, at, at + WordLength(s[at..])) && Boundary(s, at + WordLength(s[at..]))
  {
    var n := WordLength(s[at..]);
    forall i | at <= i < at + n ensures !IsDelimiter(s[i]) {
      assert s[i] == s[at..][i - at];
    }
    assert n < |s[at..]| ==> s[at + n] == s[at..][n];
  }

  /** Two words that overlap or touch are the same word. */
  lemma OneWord(s: seq<byte>, a: nat, b: nat, a': nat, b': nat)
    requires IsWordAt(s, a, b) && IsWordAt(s, a', b') && a <= a' <= b
    ensures a == a' && b == b'
  {
  }

  /** The texts at a list of spans. */
  function Texts(s: seq<byte>, spans: seq<(nat, nat)>): seq<seq<byte>> {
    if spans == [] then []
    else [if spans[0].0 <= spans[0].1 <= |s| then s[spans[0].0..spans[0].1] else []] + Texts(s, spans[1..])
  }

  /** The words are the texts at the spans. */
  lemma {:induction false} WordsAreTexts(s: seq<byte>, at: nat)
    requires Boundary(s, at)
    ensures Words(s[at..]) == Texts(s, Spans(s, at))
    decreases |s| - at
  {
    if at == |s| {
      NoText(s);
    } else if IsDelimiter(s[at]) {
      WordsAreTexts(s, at + 1);
      SkipDelimiter(s, at);
    } else {
      WordEnds(s, at);
      WordsAreTexts(s, at + WordLength(s[at..]));
      NextText(s, at);
    }
  }

  lemma NextText(s: seq<byte>, at: nat)
    requires Boundary(s, at) && at < |s| && !IsDelimiter(s[at])
    requires var end := at + WordLength(s[at..]);
      end <= |s| && Words(s[end..]) == Texts(s, Spans(s, end))
    ensures Words(s[at..]) == Texts(s, Spans(s, at))
  {
    var end := at + WordLength(s[at..]);
    var rest := Spans(s, end);
    NextWord(s, at, end - at);
    TextsHead(s, (at, end), rest);
    assert Spans(s, at) == [(at, end)] + rest;
  }

  lemma NoText(s: seq<byte>)
    ensures Words(s[|s|..]) == [] == Texts(s, Spans(s, |s|))
  {
  }

  lemma SkipDelimiter(s: seq<byte>, at: nat)
    requires at < |s| && IsDelimiter(s[at])
    ensures Words(s[at..]) == Words(s[at + 1..]) && Spans(s, at) == Spans(s, at + 1)
  {
    assert s[at..][1..] == s[at + 1..];
  }

  lemma NextWord(s: seq<byte>, at: nat, n: nat)
    requires at < |s| && !IsDelimiter(s[at]) && n == WordLength(s[at..])
    ensures Words(s[at..]) == [s[at..at + n]] + Words(s[at + n..])
  {
    assert s[at..][..n] == s[at..at + n];
    assert s[at..][n..] == s[at + n..];
  }

  lemma TextsHead(s: seq<byte>, span: (nat, nat), spans: seq<(nat, nat)>)
    requires span.0 <= span.1 <= |s|
    ensures Texts(s, [span] + spans) == [s[span.0..span.1]] + Texts(s, spans)
  {
    assert ([span] + spans)[1..] == spans;
  }

  /** The spans come from left to right. */
  lemma {:induction false} SpansOrdered(s: seq<byte>, at: nat)
    requires Boundary(s, at)
    ensures forall i :: 0 <= i < |Spans(s, at)| ==> at <= Spans(s, at)[i].0 < Spans(s, at)[i].1 <= |s|
    ensures forall i, j :: 0 <= i < j < |Spans(s, at)| ==> Spans(s, at)[i].1 <= Spans(s, at)[j].0
    decreases |s| - at
  {
    if at < |s| {
      if IsDelimiter(s[at]) {
        SpansOrdered(s, at + 1);
      } else {
        WordEnds(s, at);
        SpansOrdered(s, at + WordLength(s[at..]));
      }
    }
  }

  /** Cutting a text right after a delimiter cuts its list of words. */
  lemma {:induction false} WordsSplit(x: seq<byte>, y: seq<byte>)
    requires x != [] ==> IsDelimiter(x[|x| - 1])
    ensures Words(x + y) == Words(x) + Words(y)
    decreases |x|
  {
    if x == [] {
      assert x + y == y;
    } else if IsDelimiter(x[0]) {
      assert (x + y)[1..] == x[1..] + y;
      WordsSplit(x[1..], y);
    } else {
      var n := WordLength(x);
      assert n < |x|;
      LengthStops(x, y);
      assert (x + y)[..n] == x[..n] && (x + y)[n..] == x[n..] + y;
      WordsSplit(x[n..], y);
      Assoc([x[..n]], Words(x[n..]), Words(y));
    }
  }

  lemma {:induction false} LengthStops(x: seq<byte>, y: seq<byte>)
    requires WordLength(x) < |x|
    ensures WordLength(x + y) == WordLength(x)
    decreases |x|
  {
    if !IsDelimiter(x[0]) {
      assert (x + y)[1..] == x[1..] + y;
      LengthStops(x[1..], y);
    }
  }

  // ---- Map

  /** The length of the line `getline` returns: up to and including the first newline, or to the end of the file. */
  function LineLength(s: seq<byte>): (n: nat)
    ensures n <= |s|
    ensures s != [] ==> n > 0
    ensures n < |s| ==> s[n - 1] == NEWLINE
  {
    if s == [] then 0 else if s[0] == NEWLINE then 1 else 1 + LineLength(s[1..])
  }

  /** The part of a buffer a C string function sees. */
  function CPrefix(s: seq<byte>): (t: seq<byte>)
    ensures t <= s && NUL !in t
    ensures |t| < |s| ==> s[|t|] == NUL
  {
    if s == [] || s[0] == NUL then [] else [s[0]] + CPrefix(s[1..])
  }

  /** What `Map` emits for a file: line by line, the words of the line as a C string. */
  function Tokens(file: seq<byte>): seq<seq<byte>> {
    if file == [] then []
    else
      var n := LineLength(file);
      Words(CPrefix(file[..n])) + Tokens(file[n..])
  }

  /** One `strsep`: the next token, and where the rest of the string starts if a delimiter was found. */
  method StrSep(s: seq<byte>, dummy: nat) returns (end: nat, found: bool)
    requires dummy <= |s|
    ensures dummy <= end <= |s| && end == dummy + WordLength(s[dummy..])
    ensures found <==> end < |s|
  {
    end := dummy;
    while end < |s| && !IsDelimiter(s[end])
      invariant dummy <= end <= |s|
      invariant WordLength(s[dummy..]) == end - dummy + WordLength(s[end..])
    {
      assert s[end..][1..] == s[end + 1..];
      end := end + 1;
    }
    found := end < |s|;
  }

  /** The inner loop of `Map`: cut one line, and emit the tokens that are not empty. */
  method TokenizeLine(line: seq<byte>) returns (emitted: seq<seq<byte>>)
    ensures emitted == Words(line)
  {
    emitted := [];
    var dummy, more := 0, true;
    assert line[0..] == line;
    while more
      invariant dummy <= |line|
      invariant more ==> Words(line) == emitted + Words(line[dummy..])
      invariant !more ==> Words(line) == emitted
      decreases more, |line| - dummy
    {
      var end, found := StrSep(line, dummy);
      CutToken(line, dummy, emitted);
      if line[dummy..end] != [] {
        emitted := emitted + [line[dummy..end]];
      }
      if found {
        dummy := end + 1;
      } else {
        more := false;
      }
    }
  }

  /** One token, if it is not empty, and then the words after the delimiter that ends it. */
  lemma CutToken(line: seq<byte>, dummy: nat, emitted: seq<seq<byte>>)
    requires dummy <= |line|
    ensures var end := dummy + WordLength(line[dummy..]);
      var next := if end > dummy then emitted + [line[dummy..end]] else emitted;
      && (end < |line| ==> emitted + Words(line[dummy..]) == next + Words(line[end + 1..]))
      && (end == |line| ==> emitted + Words(line[dummy..]) == next)
  {
    var end := dummy + WordLength(line[dummy..]);
    CutWords(line, dummy, end);
    if end < |line| {
      Assoc(emitted, if end > dummy then [line[dummy..end]] else [], Words(line[end + 1..]));
    }
  }

  lemma CutWords(line: seq<byte>, dummy: nat, end: nat)
    requires dummy <= |line| && end == dummy + WordLength(line[dummy..])
    ensures var token := if end > dummy then [line[dummy..end]] else [];
      Words(line[dummy..]) == if end < |line| then token + Words(line[end + 1..]) else token
  {
    var rest := line[dummy..];
    WordsCut(rest);
    assert rest[..end - dummy] == line[dummy..end];
    if end < |line| {
      assert rest[end - dummy + 1..] == line[end + 1..];
    }
  }

  lemma WordsCut(s: seq<byte>)
    ensures var n := WordLength(s);
      && (n < |s| ==> Words(s) == (if n > 0 then [s[..n]] else []) + Words(s[n + 1..]))
      && (n == |s| ==> Words(s) == if n > 0 then [s] else [])
  {
    var n := WordLength(s);
    if n < |s| {
      assert s[n..][1..] == s[n + 1..];
      assert Words(s[n..]) == Words(s[n + 1..]);
    } else {
      assert s[..n] == s;
    }
  }

  /** `Map`: the `getline` loop. */
  method Map(file: seq<byte>) returns (emitted: seq<seq<byte>>)
    ensures emitted == Tokens(file)
  {
    emitted := [];
    var pos := 0;
    assert file[0..] == file;
    while pos < |file|
      invariant pos <= |file|
      invariant Tokens(file) == emitted + Tokens(file[pos..])
    {
      var n := LineLength(file[pos..]);
      var line := file[pos..][..n];
      var words := TokenizeLine(CPrefix(line));
      assert file[pos..][n..] == file[pos + n..];
      Assoc(emitted, words, Tokens(file[pos + n..]));
      emitted := emitted + words;
      pos := pos + n;
    }
    assert Tokens([]) == [];
    assert file[pos..] == [];
  }

  lemma {:induction false} CPrefixWhole(s: seq<byte>)
    requires NUL !in s
    ensures CPrefix(s) == s
  {
    if s == [] {
    } else {
      CPrefixWhole(s[1..]);
    }
  }

  lemma {:induction false} TokensOfText(file: seq<byte>)
    requires NUL !in file
    ensures Tokens(file) == Words(file)
    decreases |file|
  {
    if file == [] {
    } else {
      var n := LineLength(file);
      var line, rest := file[..n], file[n..];
      assert file == line + rest;
      CPrefixWhole(line);
      TokensOfText(rest);
      if n < |file| {
        WordsSplit(line, rest);
      } else {
        assert line == file && rest == [];
      }
    }
  }

  lemma {:induction false} WordsWithin(s: seq<byte>)
    ensures forall w, c :: w in Words(s) && c in w ==> c in s
    decreases |s|
  {
    if s == [] {
    } else {
      if IsDelimiter(s[0]) {
        WordsWithin(s[1..]);
      } else {
        WordsWithin(s[WordLength(s)..]);
      }
    }
  }

  lemma {:induction false} TokensHaveNoNul(file: seq<byte>)
    ensures forall w :: w in Tokens(file) ==> NUL !in w && w != []
    decreases |file|
  {
    if file == [] {
    } else {
      var n := LineLength(file);
      TokensHaveNoNul(file[n..]);
      WordsWithin(CPrefix(file[..n]));
      WordsNonEmpty(CPrefix(file[..n]));
    }
  }

  lemma {:induction false} WordsNonEmpty(s: seq<byte>)
    ensures [] !in Words(s)
    decreases |s|
  {
    if s == [] {
    } else {
      if IsDelimiter(s[0]) {
        WordsNonEmpty(s[1..]);
      } else {
        WordsNonEmpty(s[WordLength(s)..]);
      }
    }
  }

  /** Every character that is not a delimiter is in some word. */
  lemma {:induction false} WordsCover(s: seq<byte>, c: byte) returns (w: seq<byte>)
    requires c in s && !IsDelimiter(c)
    ensures w in Words(s) && c in w
    decreases |s|
  {
    if IsDelimiter(s[0]) {
      w := WordsCover(s[1..], c);
    } else {
      var n := WordLength(s);
      if c in s[..n] {
        w := s[..n];
      } else {
        assert s == s[..n] + s[n..];
        w := WordsCover(s[n..], c);
      }
    }
  }

  /** `Map` emits exactly the words of the whole file precisely when the file has no NUL byte. */
  lemma TokensExactly(file: seq<byte>)
    ensures Tokens(file) == Words(file) <==> NUL !in file
  {
    if NUL in file {
      var w := WordsCover(file, NUL);
      TokensHaveNoNul(file);
    } else {
      TokensOfText(file);
    }
  }

  // ---- Reduce

  datatype Option<T> = None | Some(value: T)

  /** A word and the count printed for it. */
  datatype Line = Line(word: seq<byte>, count: nat)

  function PrintedFor(g: Group): Line {
    Line(g.key, |g.values|)
  }

  function Printed(gs: seq<Group>): (r: seq<Line>)
    ensures |r| == |gs| && forall i :: 0 <= i < |gs| ==> r[i] == PrintedFor(gs[i])
  {
    seq(|gs|, i requires 0 <= i < |gs| => PrintedFor(gs[i]))
  }

  /** `values` are what has been drained of `start`, and `rest` is left. */
  ghost predicate Drained(key: seq<byte>, start: seq<Record>, values: seq<seq<byte>>, rest: seq<Record>) {
    && Draining(key, [], start) == Draining(key, values, rest)
    && |rest| + |values| == |start| && (values == [] ==> rest == start)
  }

  lemma DrainedNext(key: seq<byte>, start: seq<Record>, values: seq<seq<byte>>, rest: seq<Record>)
    requires Drained(key, start, values, rest) && rest != [] && rest[0].key == key
    ensures Drained(key, start, values + [rest[0].value], rest[1..])
  {
    DrainNext(key, values, rest);
  }

  /** `part_data`, `part_num` and `part_count` of mapreduce.c. */
  class Partitions {
    const partData: seq<array<Record>>
    const partNum: array<nat>
    const partCount: array<nat>

    ghost predicate Valid()
      reads partNum, partCount, partData
    {
      && |partData| == partNum.Length == partCount.Length && partNum != partCount
      && forall p :: 0 <= p < |partData| ==>
           partCount[p] <= partNum[p] <= partData[p].Length && CKeys(partData[p][..partNum[p]])
    }

    /** The records of a partition that no reducer has drained yet. */
    ghost function Rest(p: nat): (s: seq<Record>)
      requires Valid() && p < |partData|
      reads partNum, partCount, partData
      ensures |s| == partNum[p] - partCount[p] && CKeys(s)
    {
      partData[p][partCount[p]..partNum[p]]
    }

    /** `get_next`: the next value while the cursor is at a record with the key. */
    method GetNext(key: seq<byte>, p: nat) returns (value: Option<seq<byte>>)
      requires Valid() && p < |partData| && IsCString(key)
      modifies partCount
      ensures Valid() && forall q :: 0 <= q < |partData| && q != p ==> partCount[q] == old(partCount[q])
      ensures old(Rest(p)) != [] && old(Rest(p))[0].key == key ==>
        value == Some(old(Rest(p))[0].value) && Rest(p) == old(Rest(p))[1..]
      ensures old(Rest(p)) == [] || old(Rest(p))[0].key != key ==> value == None && Rest(p) == old(Rest(p))
    {
      ghost var rest := Rest(p);
      if partCount[p] < partNum[p] {
        assert rest[0] == partData[p][partCount[p]];
        CompareEqual(partData[p][partCount[p]].key, key);
        if StrCmp(partData[p][partCount[p]].key, key) == 0 {
          value := Some(partData[p][partCount[p]].value);
          partCount[p] := partCount[p] + 1;
          return;
        }
      }
      value := None;
    }

    /** The `Reduce` of wordcount.c: drain the key and count. */
    method Reduce(key: seq<byte>, p: nat) returns (line: Line, ghost values: seq<seq<byte>>)
      requires Valid() && p < |partData| && IsCString(key)
      modifies partCount
      ensures Valid() && forall q :: 0 <= q < |partData| && q != p ==> partCount[q] == old(partCount[q])
      ensures line == Line(key, |values|)
      ensures Draining(key, [], old(Rest(p))) == [Group(key, values)] + Groups(Rest(p))
      ensures |Rest(p)| <= |old(Rest(p))|
      ensures old(Rest(p)) != [] && old(Rest(p))[0].key == key ==> |Rest(p)| < |old(Rest(p))|
    {
      var count := 0;
      values := [];
      var more := true;
      while more
        invariant Valid() && count == |values| && Drained(key, old(Rest(p)), values, Rest(p))
        invariant forall q :: 0 <= q < |partData| && q != p ==> partCount[q] == old(partCount[q])
        invariant !more ==> Rest(p) == [] || Rest(p)[0].key != key
        decreases more, |Rest(p)|
      {
        ghost var rest := Rest(p);
        var value := GetNext(key, p);
        if value.Some? {
          DrainedNext(key, old(Rest(p)), values, rest);
          values := values + [value.value];
          count := count + 1;
        } else {
          more := false;
        }
      }
      DrainEnd(key, values, Rest(p));
      line := Line(key, count);
    }

    /** `MR_reduce` with that reducer: reduce the key at the cursor until the partition is drained. */
    method MrReduce(p: nat) returns (lines: seq<Line>)
      requires Valid() && p < |partData|
      modifies partCount
      ensures Valid() && forall q :: 0 <= q < |partData| && q != p ==> partCount[q] == old(partCount[q])
      ensures Rest(p) == [] && lines == Printed(Groups(old(Rest(p))))
    {
      lines := [];
      while partCount[p] < partNum[p]
        invariant Valid()
        invariant forall q :: 0 <= q < |partData| && q != p ==> partCount[q] == old(partCount[q])
        invariant Printed(Groups(old(Rest(p)))) == lines + Printed(Groups(Rest(p)))
        decreases |Rest(p)|
      {
        ghost var rest := Rest(p);
        assert rest[0] == partData[p][partCount[p]];
        DrainStart(rest);
        var line, values := Reduce(partData[p][partCount[p]].key, p);
        PrintedHead(lines, Group(rest[0].key, values), Groups(Rest(p)));
        lines := lines + [line];
      }
      assert Rest(p) == [];
    }
  }

  lemma PrintedHead(lines: seq<Line>, g: Group, gs: seq<Group>)
    ensures lines + Printed([g] + gs) == (lines + [PrintedFor(g)]) + Printed(gs)
  {
    assert Printed([g] + gs) == [PrintedFor(g)] + Printed(gs);
  }
}
