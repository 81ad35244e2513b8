/** The scanning macros of 3rd_party/EdUrlParser.cpp. */
module Walks {
  function SkipSpaces(s: string): string {
    if s != "" && s[0] == ' ' then SkipSpaces(s[1..]) else s
  }

  lemma {:induction false} SkippedSpaces(s: string, n: nat)
    requires n <= |s| && (forall i | 0 <= i < n :: s[i] == ' ') && (n < |s| ==> s[n] != ' ')
    ensures SkipSpaces(s) == s[n..]
  {
    if n > 0 {
      SkippedSpaces(s[1..], n - 1);
    }
  }

  lemma {:induction false} SkipsSpaces(s: string)
    ensures SkipSpaces(s) != "" ==> SkipSpaces(s)[0] != ' '
    ensures SkipSpaces(SkipSpaces(s)) == SkipSpaces(s)
  {
    if s != "" {
      SkipsSpaces(s[1..]);
    }
  }

  /** No character of `stops` occurs. */
  predicate Free(s: string, stops: string) {
    forall i | 0 <= i < |s| :: s[i] !in stops
  }

  /** How far a walk goes: to the first of the stop characters, or to the end. */
  function Until(s: string, stops: string): (n: nat)
    ensures n <= |s| && Free(s[..n], stops) && (n < |s| ==> s[n] in stops)
  {
    if s == "" || s[0] in stops then 0
    else
      var n := 1 + Until(s[1..], stops);
      assert s[..n] == [s[0]] + s[1..][..n - 1];
      n
  }

  lemma {:induction false} UntilEnd(a: string, b: string, stops: string)
    requires Free(a, stops) && (b != "" ==> b[0] in stops)
    ensures Until(a + b, stops) == |a| && (a + b)[..|a|] == a && (a + b)[|a|..] == b
  {
    if a == "" {
      assert a + b == b;
    } else {
      UntilEnd(a[1..], b, stops);
      assert (a + b)[1..] == a[1..] + b;
    }
  }

  method WalkSpaces(buf: string) returns (pos: nat)
    ensures pos <= |buf| && buf[pos..] == SkipSpaces(buf)
  {
    pos := 0;
    while pos < |buf| && buf[pos] == ' '
      invariant pos <= |buf| && forall i | 0 <= i < pos :: buf[i] == ' '
    {
      pos := pos + 1;
    }
    SkippedSpaces(buf, pos);
  }

  method WalkUntil(buf: string, start: nat, stops: string) returns (pos: nat)
    requires start <= |buf|
    ensures start <= pos <= |buf| && Free(buf[start..pos], stops) && (pos < |buf| ==> buf[pos] in stops)
    ensures pos - start == Until(buf[start..], stops)
  {
    pos := start;
    while pos < |buf| && buf[pos] !in stops
      invariant start <= pos <= |buf| && forall i | start <= i < pos :: buf[i] !in stops
    {
      pos := pos + 1;
    }
    assert buf[start..] == buf[start..pos] + buf[pos..];
    UntilEnd(buf[start..pos], buf[pos..], stops);
  }
}
