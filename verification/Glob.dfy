/** The prefix matcher of 3rd_party/mongoose.c for patterns with `?`, `*`,
    `**`, `$` and `|`. */
module Glob {
  import opened Bytes
  const QUESTION: byte := '?' as int
  const DOLLAR: byte := '$' as int
  const STAR: byte := '*' as int
  const SLASH: byte := '/' as int
  const BAR: byte := '|' as int

  function Lower(c: byte): byte {
    if 65 <= c <= 90 then c + 32 else c
  }

  /** The same octet, or the same letter in the other case. */
  predicate SameLetter(a: byte, b: byte) {
    || a == b
    || ('A' as int <= a <= 'Z' as int && b == a + 32)
    || ('A' as int <= b <= 'Z' as int && a == b + 32)
  }

  lemma LowerIsCase(a: byte, b: byte)
    ensures Lower(a) == Lower(b) <==> SameLetter(a, b)
  {
  }

  predicate SameText(s: bytes, t: bytes) {
    |s| == |t| && forall i | 0 <= i < |s| :: SameLetter(s[i], t[i])
  }

  /** The first `k` octets of `s` match the pattern: `?` stands for any octet,
      `*` for octets other than '/', `**` for any octets, `$` for the end of
      `s` (what follows it in the pattern is never looked at), and everything
      else for itself in either case. */
  ghost predicate Matches(p: bytes, s: bytes, k: nat)
    requires k <= |s|
    decreases |p|
  {
    if p == [] then k == 0
    else if p[0] == DOLLAR then k == 0 && s == []
    else if p[0] == STAR then
      if |p| > 1 && p[1] == STAR then exists n | 0 <= n <= k :: Matches(p[2..], s[n..], k - n)
      else exists n | 0 <= n <= k :: SLASH !in s[..n] && Matches(p[1..], s[n..], k - n)
    else
      k > 0 && (p[0] == QUESTION || Lower(p[0]) == Lower(s[0])) && Matches(p[1..], s[1..], k - 1)
  }

  /** Length of the longest front part without '/'. */
  function Run(s: bytes): (n: nat)
    ensures n <= |s|
  {
    if s == [] || s[0] == SLASH then 0 else 1 + Run(s[1..])
  }

  lemma {:induction false} RunIsLongest(s: bytes, n: nat)
    requires n <= |s|
    ensures SLASH !in s[..n] <==> n <= Run(s)
  {
    if n > 0 {
      assert s[..n] == [s[0]] + s[1..][..n - 1];
      if s[0] != SLASH {
        RunIsLongest(s[1..], n - 1);
      }
    }
  }

  function Plus(r: int, n: nat): int {
    if r < 0 then -1 else r + n
  }

  /** What the matcher answers for a pattern without `|`: -1, or the length of
      a matching front part of `s`. A star tries its longest run first. */
  function Greedy(p: bytes, s: bytes): (r: int)
    ensures -1 <= r <= |s|
    decreases |p|, 0
  {
    if p == [] then 0
    else if p[0] == QUESTION && s != [] then Plus(Greedy(p[1..], s[1..]), 1)
    else if p[0] == DOLLAR then if s == [] then 0 else -1
    else if p[0] == STAR then
      if |p| > 1 && p[1] == STAR then
        if |p| == 2 then |s| else Longest(p[2..], s, |s|)
      else if |p| == 1 then Run(s) else Longest(p[1..], s, Run(s))
    else if s == [] || Lower(p[0]) != Lower(s[0]) then -1
    else Plus(Greedy(p[1..], s[1..]), 1)
  }

  /** The answer when a star may take up to `len` octets. */
  function Longest(rest: bytes, s: bytes, len: nat): (r: int)
    requires len <= |s|
    ensures -1 <= r <= |s|
    decreases |rest|, len + 1
  {
    var r := Greedy(rest, s[len..]);
    if r != -1 then r + len else if len == 0 then -1 else Longest(rest, s, len - 1)
  }

  lemma {:induction false} LongestCorrect(rest: bytes, s: bytes, len: nat)
    requires len <= |s|
    ensures var r := Longest(rest, s, len);
            if r == -1 then forall n, k: nat | 0 <= n <= len && n + k <= |s| :: !Matches(rest, s[n..], k)
            else exists n | 0 <= n <= len && n <= r :: Matches(rest, s[n..], r - n)
    decreases |rest|, len + 2
  {
    GreedyCorrect(rest, s[len..]);
    if Greedy(rest, s[len..]) == -1 && len > 0 {
      LongestCorrect(rest, s, len - 1);
    }
  }

  /** Soundness and completeness: the answer is the length of a match, and
      there is none when it is -1. */
  lemma {:induction false} GreedyCorrect(p: bytes, s: bytes)
    ensures var r := Greedy(p, s);
            if r == -1 then forall k: nat | k <= |s| :: !Matches(p, s, k) else Matches(p, s, r)
    decreases |p|, 1
  {
    if p != [] && p[0] == STAR {
      StarCorrect(p, s);
    } else if p != [] && p[0] != DOLLAR && s != [] {
      GreedyCorrect(p[1..], s[1..]);
    }
  }

  lemma {:induction false} StarCorrect(p: bytes, s: bytes)
    requires p != [] && p[0] == STAR
    ensures var r := Greedy(p, s);
            if r == -1 then forall k: nat | k <= |s| :: !Matches(p, s, k) else Matches(p, s, r)
    decreases |p|, 0
  {
    var double := |p| > 1 && p[1] == STAR;
    var rest, len := if double then p[2..] else p[1..], if double then |s| else Run(s);
    forall n: nat | n <= |s|
      ensures SLASH !in s[..n] <==> n <= Run(s)
    {
      RunIsLongest(s, n);
    }
    if rest == [] {
      assert Matches(rest, s[len..], 0);
    } else {
      LongestCorrect(rest, s, len);
    }
  }

  ghost predicate MatchesSome(p: bytes, s: bytes) {
    exists k: nat | k <= |s| :: Matches(p, s, k)
  }

  /** A star takes the longest run behind which the rest of the pattern matches. */
  lemma {:induction false} LongestFirst(rest: bytes, s: bytes, len: nat) returns (n: nat)
    requires len <= |s| && Longest(rest, s, len) != -1
    ensures n <= len && n <= Longest(rest, s, len) && Matches(rest, s[n..], Longest(rest, s, len) - n)
    ensures forall l: nat | n < l <= len :: !MatchesSome(rest, s[l..])
    decreases len
  {
    hide Matches, Greedy;
    GreedyCorrect(rest, s[len..]);
    if Greedy(rest, s[len..]) != -1 || len == 0 {
      n := len;
    } else {
      n := LongestFirst(rest, s, len - 1);
    }
  }

  lemma {:induction false} RunCaseBlind(s: bytes, t: bytes)
    requires SameText(s, t)
    ensures Run(s) == Run(t)
  {
    if s != [] && s[0] != SLASH {
      RunCaseBlind(s[1..], t[1..]);
    }
  }

  lemma {:induction false} LongestCaseBlind(p: bytes, q: bytes, s: bytes, t: bytes, len: nat)
    requires SameText(p, q) && SameText(s, t) && len <= |s|
    ensures Longest(p, s, len) == Longest(q, t, len)
    decreases |p|, len + 2
  {
    GreedyCaseBlind(p, q, s[len..], t[len..]);
    if len > 0 {
      LongestCaseBlind(p, q, s, t, len - 1);
    }
  }

  /** The case of letters does not matter, in the pattern or in the string. */
  lemma {:induction false} GreedyCaseBlind(p: bytes, q: bytes, s: bytes, t: bytes)
    requires SameText(p, q) && SameText(s, t)
    ensures Greedy(p, s) == Greedy(q, t)
    decreases |p|, 1
  {
    hide Longest;
    if p != [] {
      LowerIsCase(p[0], q[0]);
      if p[0] == STAR {
        RunCaseBlind(s, t);
        var n := if |p| > 1 && p[1] == STAR then 2 else 1;
        LongestCaseBlind(p[n..], q[n..], s, t, if n == 2 then |s| else Run(s));
      } else if s != [] {
        LowerIsCase(s[0], t[0]);
        GreedyCaseBlind(p[1..], q[1..], s[1..], t[1..]);
      }
    }
  }

  /** `memchr(p, '|', n)`, or -1. */
  function FirstBar(p: bytes): (r: int)
    ensures -1 <= r < |p|
    ensures r >= 0 ==> p[r] == BAR && BAR !in p[..r]
    ensures r == -1 ==> BAR !in p
  {
    if p == [] then -1
    else if p[0] == BAR then 0
    else
      var r := FirstBar(p[1..]);
      assert p == [p[0]] + p[1..] && (r >= 0 ==> p[..r + 1] == [p[0]] + p[1..][..r]);
      if r < 0 then -1 else r + 1
  }

  /** The patterns between the bars; there is always at least one. */
  function Alternatives(p: bytes): (r: seq<bytes>)
    ensures r != [] && forall a | a in r :: BAR !in a
    decreases |p|
  {
    var bar := FirstBar(p);
    if bar < 0 then [p] else [p[..bar]] + Alternatives(p[bar + 1..])
  }

  function Answer(p: bytes, s: bytes): (r: int)
    ensures -1 <= r <= |s|
    decreases |p|
  {
    var bar := FirstBar(p);
    if bar < 0 then Greedy(p, s)
    else if Greedy(p[..bar], s) > 0 then Greedy(p[..bar], s)
    else Answer(p[bar + 1..], s)
  }

  /** With bars, the answer is the first positive one among the alternatives,
      and without such a one it is that of the last alternative. */
  lemma {:induction false} AnswerOfAlternatives(p: bytes, s: bytes) returns (i: nat)
    ensures var alts := Alternatives(p);
            && i < |alts| && Answer(p, s) == Greedy(alts[i], s)
            && (forall j | 0 <= j < i :: Greedy(alts[j], s) <= 0)
            && (i < |alts| - 1 ==> Answer(p, s) > 0)
    decreases |p|
  {
    var bar := FirstBar(p);
    if bar < 0 || Greedy(p[..bar], s) > 0 {
      i := 0;
    } else {
      var rest := AnswerOfAlternatives(p[bar + 1..], s);
      var alts := Alternatives(p);
      assert alts[1..] == Alternatives(p[bar + 1..]);
      i := rest + 1;
      forall j | 0 <= j < i
        ensures Greedy(alts[j], s) <= 0
      {
        assert j > 0 ==> alts[j] == alts[1..][j - 1];
      }
    }
  }

  /** The answer is positive exactly when some alternative matches a non-empty
      front part of `s` with its own answer. */
  lemma AnswerPositive(p: bytes, s: bytes)
    ensures var alts := Alternatives(p);
            Answer(p, s) > 0 <==> exists i | 0 <= i < |alts| :: Greedy(alts[i], s) > 0
  {
    hide Alternatives, Answer, Greedy;
    var i := AnswerOfAlternatives(p, s);
    var alts := Alternatives(p);
    if j :| 0 <= j < |alts| && Greedy(alts[j], s) > 0 {
      assert j >= i;
    }
  }

  lemma {:induction false} FirstBarCaseBlind(p: bytes, q: bytes)
    requires SameText(p, q)
    ensures FirstBar(p) == FirstBar(q)
  {
    if p != [] && p[0] != BAR {
      FirstBarCaseBlind(p[1..], q[1..]);
    }
  }

  /** The answer does not depend on the case of letters. */
  lemma {:induction false} AnswerCaseBlind(p: bytes, q: bytes, s: bytes, t: bytes)
    requires SameText(p, q) && SameText(s, t)
    ensures Answer(p, s) == Answer(q, t)
    decreases |p|
  {
    hide Greedy;
    FirstBarCaseBlind(p, q);
    var bar := FirstBar(p);
    if bar < 0 {
      GreedyCaseBlind(p, q, s, t);
    } else {
      GreedyCaseBlind(p[..bar], q[..bar], s, t);
      AnswerCaseBlind(p[bar + 1..], q[bar + 1..], s, t);
    }
  }

  lemma {:induction false} FirstSlash(s: bytes)
    ensures var n := Run(s); ('/' as int) !in s[..n] && (n < |s| ==> s[n] == '/' as int)
  {
    RunIsLongest(s, Run(s));
    if s != [] && s[0] != SLASH {
      FirstSlash(s[1..]);
    }
  }

  lemma NoBar(p: bytes, s: bytes)
    requires BAR !in p
    ensures Answer(p, s) == Greedy(p, s)
  {
  }

  lemma GreedyOne(c: byte, s: bytes)
    requires c != QUESTION && c != DOLLAR && c != STAR
    ensures Greedy([c], s) == if s != [] && SameLetter(c, s[0]) then 1 else -1
  {
    hide Longest, SameLetter;
    if s != [] {
      LowerIsCase(c, s[0]);
    }
    assert [c][1..] == [] && forall t :: Greedy([], t) == 0;
  }

  lemma GreedySigns(s: bytes)
    ensures s == [] ==> Greedy([QUESTION], s) == -1 && Greedy([DOLLAR], s) == 0
    ensures s != [] ==> Greedy([QUESTION], s) == 1 && Greedy([DOLLAR], s) == -1
    ensures Greedy([STAR], s) == Run(s) && Greedy([STAR, STAR], s) == |s|
  {
    hide Longest, Run;
    assert [QUESTION][1..] == [] && forall t :: Greedy([], t) == 0;
  }

  lemma Ordinary(c: byte)
    requires c as char !in "?$*|"
    ensures c != QUESTION && c != DOLLAR && c != STAR && c != BAR
  {
    assert '?' in "?$*|" && '$' in "?$*|" && '*' in "?$*|" && '|' in "?$*|";
  }

  /** What each sign of a pattern means by itself. */
  lemma Signs(c: byte, s: bytes)
    ensures Answer(['?' as int], s) == if s == [] then -1 else 1
    ensures Answer(['$' as int], s) == if s == [] then 0 else -1
    ensures Answer(['*' as int, '*' as int], s) == |s|
    ensures var n := Answer(['*' as int], s);
            0 <= n <= |s| && ('/' as int) !in s[..n] && (n < |s| ==> s[n] == '/' as int)
    ensures c as char !in "?$*|" ==> Answer([c], s) == if s != [] && SameLetter(c, s[0]) then 1 else -1
  {
    hide Greedy, Answer, SameLetter, Run;
    GreedySigns(s);
    FirstSlash(s);
    NoBar([QUESTION], s);
    NoBar([DOLLAR], s);
    NoBar([STAR], s);
    NoBar([STAR, STAR], s);
    if c as char !in "?$*|" {
      Ordinary(c);
      NoBar([c], s);
      GreedyOne(c, s);
    }
  }

  /** The matcher itself. */
  method MatchPrefix(pattern: bytes, str: bytes) returns (r: int)
    ensures r == Answer(pattern, str)
    decreases |pattern|
  {
    var orStr := FirstBar(pattern);
    if orStr >= 0 {
      r := MatchPrefix(pattern[..orStr], str);
      assert FirstBar(pattern[..orStr]) < 0;
      if r > 0 { return; }
      r := MatchPrefix(pattern[orStr + 1..], str);
      return;
    }
    var i, j := 0, 0;
    while i < |pattern|
      invariant 0 <= i <= |pattern| && 0 <= j <= |str| && BAR !in pattern
      invariant Plus(Greedy(pattern[i..], str[j..]), j) == Greedy(pattern, str)
    {
      var p, s := pattern[i..], str[j..];
      assert p[1..] == pattern[i + 1..] && (j < |str| ==> s[1..] == str[j + 1..]);
      if pattern[i] == QUESTION && j != |str| {
        i, j := i + 1, j + 1;
      } else if pattern[i] == DOLLAR {
        return if j == |str| then j else -1;
      } else if pattern[i] == STAR {
        r := MatchStar(p, s);
        return Plus(r, j);
      } else if j == |str| || Lower(pattern[i]) != Lower(str[j]) {
        return -1;
      } else {
        i, j := i + 1, j + 1;
      }
    }
    return j;
  }

  /** The branch for a star at the front of the rest of the pattern. */
  method MatchStar(p: bytes, s: bytes) returns (r: int)
    requires p != [] && p[0] == STAR && BAR !in p
    ensures r == Greedy(p, s)
    decreases |p|, 0
  {
    var i, len := 1, 0;
    if i < |p| && p[i] == STAR {
      i := i + 1;
      len := |s|;
    } else {
      while len != |s| && s[len] != SLASH
        invariant 0 <= len <= |s| && len + Run(s[len..]) == Run(s)
      {
        assert s[len..][1..] == s[len + 1..];
        len := len + 1;
      }
    }
    if i == |p| {
      return len;
    }
    var rest := p[i..];
    while true
      invariant 0 <= len <= |s| && Longest(rest, s, len) == Greedy(p, s)
      decreases len
    {
      r := MatchPrefix(rest, s[len..]);
      assert Answer(rest, s[len..]) == Greedy(rest, s[len..]);
      if r != -1 { return r + len; }
      if len == 0 { return -1; }
      len := len - 1;
    }
  }
}
