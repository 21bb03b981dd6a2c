/** initial-reverse/reverse.c: the backward scan of `reverse` against "the lines in reverse order". */
module Reverse {

  const NEWLINE := '\n'

  /** The newline-separated lines of a text; there is always at least one. */
  function Split(b: string): (lines: seq<string>)
    ensures |lines| >= 1
  {
    if b == [] then [[]]
    else
      var rest := Split(b[1..]);
      if b[0] == NEWLINE then [[]] + rest else [[b[0]] + rest[0]] + rest[1..]
  }

  function Join(lines: seq<string>): (b: string)
    requires |lines| >= 1
  {
    if |lines| == 1 then lines[0] else lines[0] + [NEWLINE] + Join(lines[1..])
  }

  function Backwards<T>(s: seq<T>): (t: seq<T>)
    ensures |t| == |s|
    ensures forall i :: 0 <= i < |s| ==> t[i] == s[|s| - 1 - i]
  {
    if s == [] then [] else Backwards(s[1..]) + [s[0]]
  }

  /** What `reverse` should print: the lines backwards, with a final newline if there was one. */
  function Reversed(str: string): (out: string)
  {
    if str != [] && str[|str| - 1] == NEWLINE then Join(Backwards(Split(str[..|str| - 1]))) + [NEWLINE]
    else Join(Backwards(Split(str)))
  }

  // ---- the scan

  lemma {:induction false} JoinSnoc(lines: seq<string>, last: string)
    requires |lines| >= 1
    ensures Join(lines + [last]) == Join(lines) + [NEWLINE] + last
  {
    if |lines| == 1 {
      assert (lines + [last])[1..] == [last];
    } else {
      JoinSnoc(lines[1..], last);
      assert (lines + [last])[1..] == lines[1..] + [last];
      assert lines[0] + [NEWLINE] + (Join(lines[1..]) + [NEWLINE] + last)
          == lines[0] + [NEWLINE] + Join(lines[1..]) + [NEWLINE] + last;
    }
  }

  /** What has been printed when the lines scanned so far are `lines`: all but the first, each with a newline. */
  function Printed(lines: seq<string>): (out: string)
    requires |lines| >= 1
  {
    if |lines| == 1 then [] else Join(Backwards(lines[1..])) + [NEWLINE]
  }

  lemma PrintedAll(lines: seq<string>)
    requires |lines| >= 1
    ensures Printed(lines) + lines[0] == Join(Backwards(lines))
    ensures Printed([[]] + lines) == Printed(lines) + lines[0] + [NEWLINE]
  {
    assert ([[]] + lines)[1..] == lines;
    if |lines| > 1 {
      JoinSnoc(Backwards(lines[1..]), lines[0]);
    }
  }

  /** The scan has reached index `k`: the pending line has `lineCount` characters, the later ones are printed. */
  ghost predicate Scanned(b: string, k: nat, lineCount: nat, out: string) {
    && k + lineCount <= |b|
    && out == Printed(Split(b[k..]))
    && b[k..k + lineCount] == Split(b[k..])[0]
  }

  lemma ScanStep(b: string, k: nat, lineCount: nat, out: string)
    requires Scanned(b, k, lineCount, out) && k > 0
    ensures b[k - 1] == NEWLINE ==> Scanned(b, k - 1, 0, out + b[k..k + lineCount] + [NEWLINE])
    ensures b[k - 1] != NEWLINE ==> Scanned(b, k - 1, lineCount + 1, out)
  {
    var lines := Split(b[k..]);
    assert b[k - 1..][1..] == b[k..];
    if b[k - 1] == NEWLINE {
      PrintedAll(lines);
    } else {
      assert b[k - 1..k + lineCount] == [b[k - 1]] + b[k..k + lineCount];
      assert Split(b[k - 1..])[1..] == lines[1..];
    }
  }

  lemma ScanEnd(b: string, lineCount: nat, out: string)
    requires Scanned(b, 0, lineCount, out)
    ensures out + b[0..lineCount] == Join(Backwards(Split(b)))
  {
    assert b[0..] == b;
    PrintedAll(Split(b));
  }

  /** The loop of both branches, from index `last` down to 0. */
  method ScanBackwards(str: string, last: int) returns (out: string)
    requires -1 <= last < |str|
    ensures out == Join(Backwards(Split(str[..last + 1])))
  {
    out := [];
    var lineCount, i := 0, last;
    ghost var b := str[..last + 1];
    if last == -1 {
      ScanEnd(b, 0, []);
    }
    while i >= 0
      invariant -1 <= i <= last && lineCount >= 0
      invariant i >= 0 ==> Scanned(b, i + 1, lineCount, out)
      invariant i < 0 ==> out == Join(Backwards(Split(b)))
    {
      lineCount, out := ScanChar(str, b, i, lineCount, out);
      if i == 0 {
        ScanEnd(b, lineCount, out);
        out := PrintRun(str, b, i, lineCount, out);
      }
      i := i - 1;
    }
  }

  /** The first half of the loop body: count the character, and at a newline print the line behind it. */
  method ScanChar(str: string, ghost b: string, i: nat, lineCount0: nat, out0: string)
    returns (lineCount: nat, out: string)
    requires b <= str && i < |b| && Scanned(b, i + 1, lineCount0, out0)
    ensures Scanned(b, i, lineCount, out)
  {
    out := out0;
    lineCount := lineCount0 + 1;
    ScanStep(b, i + 1, lineCount0, out0);
    if str[i] == NEWLINE {
      out := PrintRun(str, b, i + 1, lineCount - 1, out);
      out := out + [NEWLINE];
      lineCount := 0;
    }
  }

  /** One character at a time, within the scanned part `b` of `str`. */
  method PrintRun(str: string, ghost b: string, from: nat, n: nat, before: string) returns (out: string)
    requires b <= str && from + n <= |b|
    ensures out == before + b[from..from + n]
  {
    out := before;
    for j := 0 to n
      invariant out == before + b[from..from + j]
    {
      out := out + [str[from + j]];
    }
  }

  /** `reverse`, over the loaded bytes; the source reads `str[filesize-1]` first, so the file is not empty. */
  method ReverseText(str: string) returns (out: string)
    requires |str| > 0
    ensures out == Reversed(str)
  {
    if str[|str| - 1] != NEWLINE {
      out := ScanBackwards(str, |str| - 1);
      assert str[..|str|] == str;
    } else {
      out := ScanBackwards(str, |str| - 2);
      out := out + [NEWLINE];
    }
  }

  // ---- lines

  ghost predicate IsLine(l: string) {
    '\n' !in l
  }

  ghost predicate AreLines(lines: seq<string>) {
    |lines| >= 1 && forall i :: 0 <= i < |lines| ==> IsLine(lines[i])
  }

  lemma {:induction false} JoinOfSplit(b: string)
    ensures AreLines(Split(b)) && Join(Split(b)) == b
  {
    if b == [] {
    } else {
      JoinOfSplit(b[1..]);
      var rest := Split(b[1..]);
      if b[0] == NEWLINE {
        assert ([[]] + rest)[1..] == rest;
      } else if |rest| > 1 {
        assert [b[0]] + rest[0] + [NEWLINE] + Join(rest[1..]) == [b[0]] + (rest[0] + [NEWLINE] + Join(rest[1..]));
      }
    }
  }

  lemma {:induction false} SplitOne(l: string)
    requires IsLine(l)
    ensures Split(l) == [l]
  {
    if l == [] {
    } else {
      SplitOne(l[1..]);
      assert l == [l[0]] + l[1..];
    }
  }

  lemma {:induction false} SplitFirst(l: string, b: string)
    requires IsLine(l)
    ensures Split(l + [NEWLINE] + b) == [l] + Split(b)
  {
    var t := l + [NEWLINE] + b;
    if l == [] {
      assert t[1..] == b;
    } else {
      SplitFirst(l[1..], b);
      assert t[1..] == l[1..] + [NEWLINE] + b;
      assert l == [l[0]] + l[1..] && t[0] == l[0];
    }
  }

  /** Splitting undoes joining. */
  lemma {:induction false} SplitOfJoin(lines: seq<string>)
    requires AreLines(lines)
    ensures Split(Join(lines)) == lines
  {
    if |lines| == 1 {
      SplitOne(lines[0]);
    } else {
      SplitOfJoin(lines[1..]);
      SplitFirst(lines[0], Join(lines[1..]));
    }
  }

  /** The order of lines, and nothing else, is what one scan changes. */
  lemma LinesOfReversed(b: string)
    ensures Split(Join(Backwards(Split(b)))) == Backwards(Split(b))
    ensures Join(Backwards(Split(Join(Backwards(Split(b)))))) == b
  {
    JoinOfSplit(b);
    SplitOfJoin(Backwards(Split(b)));
    assert Backwards(Backwards(Split(b))) == Split(b);
  }

  // ---- twice

  lemma {:induction false} JoinEnds(lines: seq<string>)
    requires AreLines(lines)
    ensures lines[|lines| - 1] != [] ==> Join(lines) != [] && Join(lines)[|Join(lines)| - 1] != NEWLINE
    ensures lines[|lines| - 1] == [] && |lines| > 1 ==>
      Join(lines) == Join(lines[..|lines| - 1]) + [NEWLINE]
  {
    if |lines| > 1 {
      var init, last := lines[..|lines| - 1], lines[|lines| - 1];
      assert lines == init + [last];
      JoinSnoc(init, last);
    }
  }

  lemma FirstLineEmpty(b: string)
    requires b != []
    ensures Split(b)[0] == [] <==> b[0] == NEWLINE
    ensures b[0] == NEWLINE ==> |Split(b)| > 1 && Split(b)[1..] == Split(b[1..])
  {
  }

  lemma TwiceEnded(b: string)
    ensures Reversed(Reversed(b + [NEWLINE])) == b + [NEWLINE]
  {
    var r := Join(Backwards(Split(b)));
    assert (b + [NEWLINE])[..|b|] == b;
    assert (r + [NEWLINE])[..|r|] == r;
    LinesOfReversed(b);
  }

  lemma TwiceOpen(str: string)
    requires str != [] && str[|str| - 1] != NEWLINE && str[0] != NEWLINE
    ensures Reversed(Reversed(str)) == str
  {
    var lines := Split(str);
    JoinOfSplit(str);
    FirstLineEmpty(str);
    JoinEnds(Backwards(lines));
    LinesOfReversed(str);
  }

  lemma TwiceLosesBlankLine(str: string)
    requires str != [] && str[|str| - 1] != NEWLINE && str[0] == NEWLINE
    ensures Reversed(Reversed(str)) == str[1..] + [NEWLINE]
  {
    var lines := Split(str);
    JoinOfSplit(str);
    FirstLineEmpty(str);
    JoinEnds(Backwards(lines));
    assert Backwards(lines)[..|lines| - 1] == Backwards(lines[1..]);
    var r := Join(Backwards(Split(str[1..])));
    assert Reversed(str) == r + [NEWLINE];
    assert (r + [NEWLINE])[..|r|] == r;
    LinesOfReversed(str[1..]);
  }

  /** Reversing twice gives the text back exactly when it ends in a newline or does not begin with one; otherwise
      the blank first line turns into a final newline and is not turned back. */
  lemma TwiceExactly(str: string)
    requires |str| > 0
    ensures Reversed(Reversed(str)) == str <==> str[|str| - 1] == '\n' || str[0] != '\n'
  {
    if str[|str| - 1] == NEWLINE {
      TwiceEnded(str[..|str| - 1]);
      assert str == str[..|str| - 1] + [NEWLINE];
    } else if str[0] != NEWLINE {
      TwiceOpen(str);
    } else {
      TwiceLosesBlankLine(str);
      var back := str[1..] + [NEWLINE];
      assert back[|back| - 1] == NEWLINE;
    }
  }
}
