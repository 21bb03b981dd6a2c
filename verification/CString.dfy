/** The C library's view of byte strings: comparison as `strcmp` does it. */
module CString {
  import opened Rle

  /** `strcmp` on strings without NUL bytes: the difference at the first place they differ, the end of a string
      counting as 0. */
  function StrCmp(a: seq<byte>, b: seq<byte>): int {
    if a == [] && b == [] then 0
    else if a == [] then -(b[0] as int)
    else if b == [] then a[0] as int
    else if a[0] != b[0] then a[0] as int - b[0] as int
    else StrCmp(a[1..], b[1..])
  }

  /** A C string holds no NUL byte. */
  predicate IsCString(a: seq<byte>) {
    forall i :: 0 <= i < |a| ==> a[i] != 0
  }

  lemma {:induction false} CompareEqual(a: seq<byte>, b: seq<byte>)
    requires IsCString(a) && IsCString(b)
    ensures StrCmp(a, b) == 0 <==> a == b
  {
    if a == [] || b == [] || a[0] != b[0] {
    } else {
      CompareEqual(a[1..], b[1..]);
      assert a == [a[0]] + a[1..] && b == [b[0]] + b[1..];
    }
  }

  lemma {:induction false} CompareSwapped(a: seq<byte>, b: seq<byte>)
    ensures StrCmp(a, b) == -StrCmp(b, a)
  {
    if a == [] || b == [] || a[0] != b[0] {
    } else {
      CompareSwapped(a[1..], b[1..]);
    }
  }

  lemma {:induction false} CompareTransitive(a: seq<byte>, b: seq<byte>, c: seq<byte>)
    requires IsCString(a) && IsCString(b) && IsCString(c)
    requires StrCmp(a, b) <= 0 && StrCmp(b, c) <= 0
    ensures StrCmp(a, c) <= 0
    ensures StrCmp(a, b) < 0 || StrCmp(b, c) < 0 ==> StrCmp(a, c) < 0
  {
    if a == [] || b == [] || c == [] || a[0] != b[0] || b[0] != c[0] {
    } else {
      CompareTransitive(a[1..], b[1..], c[1..]);
    }
  }

  /** `a` comes before `b` in byte order, and `n` is where they part: they agree on the first `n` bytes, and then `a`
      ends or has the smaller byte. */
  ghost predicate PartsAt(a: seq<byte>, b: seq<byte>, n: nat) {
    n <= |a| && n < |b| && a[..n] == b[..n] && (n == |a| || a[n] < b[n])
  }

  /** The comparison is negative exactly when the first string comes before the second in byte order. */
  lemma CompareOrder(a: seq<byte>, b: seq<byte>)
    requires IsCString(a) && IsCString(b)
    ensures StrCmp(a, b) < 0 <==>
            exists n :: 0 <= n <= |a| && n < |b| && a[..n] == b[..n] && (n == |a| || a[n] < b[n])
  {
    if StrCmp(a, b) < 0 {
      var n := PartingPlace(a, b);
      assert a[..n] == b[..n];
    }
    if n :| 0 <= n <= |a| && n < |b| && a[..n] == b[..n] && (n == |a| || a[n] < b[n]) {
      PartedIsSmaller(a, b, n);
    }
  }

  lemma {:induction false} PartingPlace(a: seq<byte>, b: seq<byte>) returns (n: nat)
    requires StrCmp(a, b) < 0
    ensures PartsAt(a, b, n)
  {
    if a == [] || b == [] || a[0] != b[0] {
      n := 0;
    } else {
      var m := PartingPlace(a[1..], b[1..]);
      n := m + 1;
      assert a[..n] == [a[0]] + a[1..][..m] && b[..n] == [b[0]] + b[1..][..m];
    }
  }

  lemma {:induction false} PartedIsSmaller(a: seq<byte>, b: seq<byte>, n: nat)
    requires IsCString(a) && IsCString(b) && PartsAt(a, b, n)
    ensures StrCmp(a, b) < 0
    decreases n
  {
    if n == 0 {
    } else {
      assert a[..n][0] == b[..n][0] && a[..n][1..] == a[1..][..n - 1] && b[..n][1..] == b[1..][..n - 1];
      PartedIsSmaller(a[1..], b[1..], n - 1);
    }
  }
}
