/** URI path normalisation (section 5.2.4 of RFC 3986) in 3rd_party/mongoose.c. */
module UriPath {
  import opened Bytes
  import opened Mbufs
  const SLASH: byte := '/' as int
  const DOT: byte := '.' as int

  /** Length of the part before the first '/'. */
  function Segment(s: bytes): (n: nat)
    ensures n <= |s| && SLASH !in s[..n] && (n < |s| ==> s[n] == SLASH)
  {
    if s == [] || s[0] == SLASH then 0
    else
      assert s[..1 + Segment(s[1..])] == [s[0]] + s[1..][..Segment(s[1..])];
      1 + Segment(s[1..])
  }

  /** `output` without its last segment and the '/' before that, if any. */
  function RemoveLast(output: bytes): (r: bytes)
    ensures r <= output && (|r| < |output| && SLASH in output ==> output[|r|] == SLASH)
  {
    if output == [] then []
    else if output[|output| - 1] == SLASH then output[..|output| - 1]
    else RemoveLast(output[..|output| - 1])
  }

  predicate StartsWith(s: bytes, p: bytes) {
    |p| <= |s| && forall i | 0 <= i < |p| :: s[i] == p[i]
  }

  /** The loop of section 5.2.4, steps 2A to 2E in order. */
  function RemoveDots(input: bytes, output: bytes): bytes
    decreases |input|
  {
    if input == [] then output
    else if StartsWith(input, [DOT, DOT, SLASH]) then RemoveDots(input[3..], output)
    else if StartsWith(input, [DOT, SLASH]) then RemoveDots(input[2..], output)
    else if StartsWith(input, [SLASH, DOT, SLASH]) then RemoveDots(input[2..], output)
    else if input == [SLASH, DOT] then RemoveDots([SLASH], output)
    else if StartsWith(input, [SLASH, DOT, DOT, SLASH]) then RemoveDots(input[3..], RemoveLast(output))
    else if input == [SLASH, DOT, DOT] then RemoveDots([SLASH], RemoveLast(output))
    else if input == [DOT] || input == [DOT, DOT] then output
    else
      var n := if input[0] == SLASH then 1 + Segment(input[1..]) else Segment(input);
      RemoveDots(input[n..], output + input[..n])
  }

  function Normal(path: bytes): bytes {
    RemoveDots(path, [])
  }

  predicate IsDots(c: bytes) {
    c == [DOT] || c == [DOT, DOT]
  }

  /** `p[i..j]` is what stands between two slashes, or a slash and an end. */
  ghost predicate IsComponent(p: bytes, i: nat, j: nat) {
    && i <= j <= |p| && SLASH !in p[i..j]
    && (i == 0 || p[i - 1] == SLASH) && (j == |p| || p[j] == SLASH)
  }

  ghost predicate NoDots(p: bytes) {
    forall i: nat, j: nat | IsComponent(p, i, j) :: !IsDots(p[i..j])
  }

  /** A path that is empty or starts with '/'. */
  predicate Rooted(p: bytes) {
    p == [] || p[0] == SLASH
  }

  lemma DotStep(rest: bytes, output: bytes)
    requires Rooted(rest)
    ensures RemoveDots([SLASH] + [DOT] + rest, output) == RemoveDots(if rest == [] then [SLASH] else rest, output)
  {
    hide RemoveLast, Segment;
    var input := [SLASH] + [DOT] + rest;
    assert input[0] == SLASH && input[1] == DOT && input[2..] == rest;
    assert rest != [] ==> input[2] == SLASH;
  }

  lemma DotDotStep(rest: bytes, output: bytes)
    requires Rooted(rest)
    ensures RemoveDots([SLASH] + [DOT, DOT] + rest, output) == RemoveDots(if rest == [] then [SLASH] else rest, RemoveLast(output))
  {
    hide RemoveLast, Segment;
    var input := [SLASH] + [DOT, DOT] + rest;
    assert input[0] == SLASH && input[1] == DOT && input[2] == DOT && input[3..] == rest;
    assert rest != [] ==> input[3] == SLASH;
  }

  /** Only "." and ".." set off a step other than 2E. */
  lemma NotSpecial(c: bytes, rest: bytes)
    requires SLASH !in c && Rooted(rest) && !IsDots(c)
    ensures var input := [SLASH] + c + rest;
            && input[0] == SLASH
            && !StartsWith(input, [SLASH, DOT, SLASH]) && input != [SLASH, DOT]
            && !StartsWith(input, [SLASH, DOT, DOT, SLASH]) && input != [SLASH, DOT, DOT]
  {
    var input := [SLASH] + c + rest;
    assert |c| > 0 ==> input[1] == c[0];
    assert |c| > 1 ==> input[2] == c[1];
    assert |c| > 2 ==> input[3] == c[2];
    assert rest != [] ==> input[1 + |c|] == SLASH;
  }

  lemma {:induction false} SegmentOf(c: bytes, rest: bytes)
    requires SLASH !in c && Rooted(rest)
    ensures Segment(c + rest) == |c|
  {
    if c == [] {
      assert c + rest == rest;
    } else {
      SegmentOf(c[1..], rest);
      assert (c + rest)[1..] == c[1..] + rest;
    }
  }

  lemma OrdinaryStep(c: bytes, rest: bytes, output: bytes)
    requires SLASH !in c && Rooted(rest) && !IsDots(c)
    ensures RemoveDots([SLASH] + c + rest, output) == RemoveDots(rest, output + [SLASH] + c)
  {
    hide RemoveLast, Segment;
    var input := [SLASH] + c + rest;
    SegmentOf(c, rest);
    Cut([SLASH], c, rest);
    Cut(output, [SLASH], c);
    NotSpecial(c, rest);
    assert input[..1 + |c|] == [SLASH] + c;
  }

  /** One step of section 5.2.4 on an input that starts with '/' and goes on
      with the component `c`, which the input's end or another '/' follows. */
  lemma RemoveDotsStep(c: bytes, rest: bytes, output: bytes)
    requires SLASH !in c && Rooted(rest)
    ensures var next := if rest == [] then [SLASH] else rest;
            RemoveDots([SLASH] + c + rest, output) ==
              if c == [DOT] then RemoveDots(next, output)
              else if c == [DOT, DOT] then RemoveDots(next, RemoveLast(output))
              else RemoveDots(rest, output + [SLASH] + c)
  {
    hide RemoveLast;
    if c == [DOT] {
      DotStep(rest, output);
    } else if c == [DOT, DOT] {
      DotDotStep(rest, output);
    } else {
      OrdinaryStep(c, rest, output);
    }
  }

  /** A rooted input is a '/', a component and a rooted rest. */
  lemma Decompose(input: bytes) returns (c: bytes, rest: bytes)
    requires Rooted(input) && input != []
    ensures input == [SLASH] + c + rest && SLASH !in c && Rooted(rest) && |rest| < |input|
    ensures IsComponent(input, 1, 1 + |c|) && input[1..1 + |c|] == c
  {
    var n := Segment(input[1..]);
    c, rest := input[1..][..n], input[1..][n..];
    assert input[1..1 + n] == c;
  }

  lemma NoDotsAppend(p: bytes, c: bytes)
    requires NoDots(p) && SLASH !in c && !IsDots(c)
    ensures NoDots(p + [SLASH] + c)
  {
    var q := p + [SLASH] + c;
    assert q[|p|] == SLASH;
    forall i: nat, j: nat | IsComponent(q, i, j)
      ensures !IsDots(q[i..j])
    {
      if i <= |p| {
        assert j <= |p|;
        assert q[i..j] == p[i..j] && IsComponent(p, i, j);
      } else {
        assert i == |p| + 1 && j == |q|;
        assert q[i..j] == c;
      }
    }
  }

  lemma NoDotsPrefix(p: bytes, k: nat)
    requires NoDots(p) && k <= |p| && (k < |p| ==> p[k] == SLASH)
    ensures NoDots(p[..k])
  {
    forall i: nat, j: nat | IsComponent(p[..k], i, j)
      ensures !IsDots(p[..k][i..j])
    {
      assert p[..k][i..j] == p[i..j] && IsComponent(p, i, j);
    }
  }

  lemma NoDotsSuffix(p: bytes, k: nat)
    requires NoDots(p) && k <= |p| && Rooted(p[k..])
    ensures NoDots(p[k..])
  {
    var q := p[k..];
    forall i: nat, j: nat | IsComponent(q, i, j)
      ensures !IsDots(q[i..j])
    {
      if i > 0 {
        assert q[i..j] == p[k + i..k + j] && IsComponent(p, k + i, k + j);
      } else {
        assert j == 0;
      }
    }
  }

  lemma RemoveDotsNothing(output: bytes)
    ensures RemoveDots([], output) == output
  {
  }

  lemma {:induction false} RemoveLastRooted(output: bytes)
    requires Rooted(output)
    ensures var r := RemoveLast(output);
            Rooted(r) && |r| <= |output| && r == output[..|r|] && (output != [] ==> |r| < |output| && output[|r|] == SLASH)
  {
    if output != [] && output[|output| - 1] != SLASH {
      RemoveLastRooted(output[..|output| - 1]);
    }
  }

  /** No "." or ".." is left. */
  lemma {:induction false} RemovesDots(input: bytes, output: bytes)
    requires Rooted(input) && Rooted(output) && NoDots(output)
    ensures Rooted(RemoveDots(input, output)) && NoDots(RemoveDots(input, output))
    ensures input != [] || output != [] ==> RemoveDots(input, output) != []
    decreases |input|
  {
    hide NoDots, RemoveDots, RemoveLast;
    if input == [] {
      RemoveDotsNothing(output);
    } else {
      var c, rest := Decompose(input);
      RemoveDotsStep(c, rest, output);
      var next := if rest == [] then [SLASH] else rest;
      if c == [DOT] {
        RemovesDots(next, output);
      } else if c == [DOT, DOT] {
        RemoveLastRooted(output);
        NoDotsPrefix(output, |RemoveLast(output)|);
        RemovesDots(next, RemoveLast(output));
      } else {
        NoDotsAppend(output, c);
        RemovesDots(rest, output + [SLASH] + c);
      }
    }
  }

  /** Without "." and ".." there is nothing to do. */
  lemma {:induction false} LeavesNoDots(input: bytes, output: bytes)
    requires Rooted(input) && NoDots(input)
    ensures RemoveDots(input, output) == output + input
    decreases |input|
  {
    hide RemoveDots;
    if input == [] {
      RemoveDotsNothing(output);
      assert output + [] == output;
    } else {
      var c, rest := Decompose(input);
      RemoveDotsStep(c, rest, output);
      assert input[1 + |c|..] == rest;
      NoDotsSuffix(input, 1 + |c|);
      LeavesNoDots(rest, output + [SLASH] + c);
      Cut(output, [SLASH], c);
      assert output + [SLASH] + c + rest == output + input;
    }
  }

  /** Normalisation leaves no dot components and doing it again changes nothing. */
  lemma NormalForm(path: bytes)
    requires Rooted(path)
    ensures Rooted(Normal(path)) && NoDots(Normal(path)) && Normal(Normal(path)) == Normal(path)
    ensures path != [] ==> Normal(path) != []
  {
    hide RemoveDots;
    assert NoDots([]);
    RemovesDots(path, []);
    LeavesNoDots(Normal(path), []);
    assert [] + Normal(path) == Normal(path);
  }

  /** Where the backtracking of the source ends up. */
  function Back(out: bytes): (r: bytes)
    ensures r <= out
  {
    if out == [] || out[|out| - 1] == SLASH then out else Back(out[..|out| - 1])
  }

  lemma {:induction false} BackIsRemoveLast(output: bytes)
    requires Rooted(output) && output != []
    ensures Back(output) == RemoveLast(output) + [SLASH]
  {
    var n := |output| - 1;
    assert output == output[..n] + [output[n]];
    if output[n] != SLASH {
      BackIsRemoveLast(output[..n]);
    }
  }

  /** State of the loop: `out` is written and `rest` is still to be read. After
      the first component, `out` ends with a '/' that section 5.2.4 still has
      at the front of its input; after the last one, all is done. */
  ghost predicate Normalizing(path: bytes, out: bytes, rest: bytes, output: bytes) {
    || (rest == path && out == [])
    || (out == output + [SLASH] && Rooted(output) && RemoveDots([SLASH] + rest, output) == Normal(path))
    || (rest == [] && out == Normal(path))
  }

  /** The loop's effect on the output for one component and the '/' after it. */
  function Write(out: bytes, c: bytes, slash: bytes): bytes {
    if c == [DOT] then out
    else if c == [DOT, DOT] then
      if |out| > 1 && out[|out| - 1] == SLASH then Back(out[..|out| - 1]) else Back(out)
    else out + c + slash
  }

  lemma FirstComponent(path: bytes)
    requires path != [] && path[0] == SLASH
    ensures Normalizing(path, Write([], [], [SLASH]), path[1..], [])
  {
    assert [SLASH] + path[1..] == path && [] + [SLASH] == [SLASH] == [] + [] + [SLASH];
  }

  lemma SlashOnly(output: bytes)
    ensures RemoveDots([SLASH], output) == output + [SLASH]
  {
    hide RemoveLast;
    assert [SLASH][..1] == [SLASH] && [SLASH][1..] == [];
    RemoveDotsNothing(output + [SLASH]);
  }

  lemma NextComponent(path: bytes, out: bytes, output: bytes, c: bytes, slash: bytes, rest: bytes)
    returns (output': bytes)
    requires SLASH !in c && (slash == [SLASH] || (slash == [] && rest == []))
    requires out == output + [SLASH] && Rooted(output)
    requires RemoveDots([SLASH] + (c + slash + rest), output) == Normal(path)
    ensures Normalizing(path, Write(out, c, slash), rest, output')
  {
    hide RemoveDots, Normal;
    output' := output;
    assert [SLASH] + (c + slash + rest) == [SLASH] + c + (slash + rest);
    RemoveDotsStep(c, slash + rest, output);
    SlashOnly(output);
    SlashOnly(RemoveLast(output));
    if c == [DOT, DOT] {
      RemoveLastRooted(output);
      output' := RemoveLast(output);
      if output != [] {
        assert out[..|out| - 1] == output;
        BackIsRemoveLast(output);
      }
    } else if c != [DOT] {
      output' := output + [SLASH] + c;
      RemoveDotsNothing(output');
    }
  }

  lemma NormalizingNext(path: bytes, out: bytes, output: bytes, c: bytes, slash: bytes, rest: bytes)
    returns (output': bytes)
    requires path != [] && path[0] == SLASH
    requires SLASH !in c && (slash == [SLASH] || (slash == [] && rest == [])) && c + slash + rest != []
    requires Normalizing(path, out, c + slash + rest, output)
    ensures Normalizing(path, Write(out, c, slash), rest, output')
  {
    hide RemoveDots, Normal;
    if out == [] {
      assert (c + slash + rest)[0] == SLASH;
      assert c == [] && slash == [SLASH] && path[1..] == rest;
      FirstComponent(path);
      output' := [];
    } else {
      output' := NextComponent(path, out, output, c, slash, rest);
    }
  }

  /** A '/' before each component. */
  function Slashed(components: seq<bytes>): bytes {
    if components == [] then [] else [SLASH] + components[0] + Slashed(components[1..])
  }

  function Pop(stack: seq<bytes>): seq<bytes> {
    if stack == [] then [] else stack[..|stack| - 1]
  }

  /** What the components stand for: "." stays where it is and ".." goes back by one;
      at the end they leave an empty component, which shows as a final '/'. */
  function Resolve(components: seq<bytes>, stack: seq<bytes>): seq<bytes>
    decreases |components|
  {
    if components == [] then stack
    else if IsDots(components[0]) then
      var now := if components[0] == [DOT] then stack else Pop(stack);
      if |components| == 1 then now + [[]] else Resolve(components[1..], now)
    else Resolve(components[1..], stack + [components[0]])
  }

  predicate Components(cs: seq<bytes>) {
    forall c | c in cs :: SLASH !in c
  }

  lemma SlashedFirst(c: bytes, rest: seq<bytes>)
    ensures Slashed([c] + rest) == [SLASH] + c + Slashed(rest)
  {
    assert ([c] + rest)[1..] == rest;
  }

  lemma {:induction false} SlashedLast(stack: seq<bytes>, c: bytes)
    ensures Slashed(stack + [c]) == Slashed(stack) + [SLASH] + c
  {
    if stack == [] {
      assert [] + [c] == [c] && [c][1..] == [] && [SLASH] + c + [] == [SLASH] + c;
    } else {
      SlashedLast(stack[1..], c);
      assert (stack + [c])[1..] == stack[1..] + [c] && (stack + [c])[0] == stack[0];
    }
  }

  lemma {:induction false} RemoveLastAt(front: bytes, c: bytes)
    requires SLASH !in c
    ensures RemoveLast(front + [SLASH] + c) == front
    decreases |c|
  {
    var output := front + [SLASH] + c;
    if c == [] {
      assert output[..|output| - 1] == front;
    } else {
      assert output[..|output| - 1] == front + [SLASH] + c[..|c| - 1] && output[|output| - 1] == c[|c| - 1];
      RemoveLastAt(front, c[..|c| - 1]);
    }
  }

  lemma PopIsRemoveLast(stack: seq<bytes>)
    requires Components(stack)
    ensures RemoveLast(Slashed(stack)) == Slashed(Pop(stack)) && Components(Pop(stack))
  {
    if stack != [] {
      var front, last := stack[..|stack| - 1], stack[|stack| - 1];
      assert stack == front + [last] && last in stack;
      SlashedLast(front, last);
      RemoveLastAt(Slashed(front), last);
    }
  }

  lemma RestIsRooted(components: seq<bytes>)
    ensures Rooted(Slashed(components)) && (Slashed(components) == [] <==> components == [])
  {
  }

  lemma LastSlash(now: seq<bytes>)
    ensures RemoveDots([SLASH], Slashed(now)) == Slashed(now + [[]])
  {
    SlashedLast(now, []);
    SlashOnly(Slashed(now));
    assert Slashed(now) + [SLASH] + [] == Slashed(now) + [SLASH];
  }

  /** The loop of section 5.2.4 resolves the components one after the other. */
  lemma {:induction false} RemoveDotsResolves(components: seq<bytes>, stack: seq<bytes>)
    requires Components(components) && Components(stack)
    ensures RemoveDots(Slashed(components), Slashed(stack)) == Slashed(Resolve(components, stack))
    decreases |components|
  {
    hide RemoveDots, RemoveLast;
    if components == [] {
      RemoveDotsNothing(Slashed(stack));
    } else {
      var c, rest := components[0], components[1..];
      assert c in components && (forall x | x in rest :: x in components);
      RestIsRooted(rest);
      RemoveDotsStep(c, Slashed(rest), Slashed(stack));
      PopIsRemoveLast(stack);
      SlashedLast(stack, c);
      if IsDots(c) {
        var now := if c == [DOT] then stack else Pop(stack);
        if rest == [] {
          LastSlash(now);
        } else {
          RemoveDotsResolves(rest, now);
        }
      } else {
        RemoveDotsResolves(rest, stack + [c]);
      }
    }
  }

  /** Every path that starts with '/' is made of components. */
  lemma {:induction false} PathHasComponents(path: bytes) returns (components: seq<bytes>)
    requires Rooted(path)
    ensures Components(components) && path == Slashed(components)
    decreases |path|
  {
    if path == [] {
      components := [];
    } else {
      var c, rest := Decompose(path);
      var more := PathHasComponents(rest);
      SlashedFirst(c, more);
      components := [c] + more;
    }
  }

  /** Normalising a path resolves its components, whatever they are. */
  lemma NormalIsResolution(components: seq<bytes>)
    requires Components(components)
    ensures Normal(Slashed(components)) == Slashed(Resolve(components, []))
  {
    RemoveDotsResolves(components, []);
  }

  lemma {:induction false} ResolveUndoes(front: seq<bytes>, c: bytes, rest: seq<bytes>, stack: seq<bytes>)
    requires !IsDots(c) && rest != []
    ensures Resolve(front + [c, [DOT, DOT]] + rest, stack) == Resolve(front + rest, stack)
    decreases |front|
  {
    var cs := front + [c, [DOT, DOT]] + rest;
    if front == [] {
      assert cs[1..] == [[DOT, DOT]] + rest && cs[1..][1..] == rest && front + rest == rest;
      assert (stack + [c])[..|stack|] == stack;
    } else {
      assert cs[1..] == front[1..] + [c, [DOT, DOT]] + rest && cs[0] == front[0];
      assert (front + rest)[1..] == front[1..] + rest && (front + rest)[0] == front[0];
      ResolveUndoes(front[1..], c, rest, if IsDots(front[0]) then if front[0] == [DOT] then stack else Pop(stack) else stack + [front[0]]);
    }
  }

  /** A component and the ".." after it come to nothing, wherever they stand. */
  lemma DotDotUndoes(front: seq<bytes>, c: bytes, rest: seq<bytes>)
    requires Components(front) && Components(rest) && SLASH !in c && !IsDots(c) && rest != []
    ensures Normal(Slashed(front + [c, [DOT, DOT]] + rest)) == Normal(Slashed(front + rest))
  {
    ResolveUndoes(front, c, rest, []);
    NormalIsResolution(front + [c, [DOT, DOT]] + rest);
    NormalIsResolution(front + rest);
  }

  /** The end of the component at `s`, not beyond `end`. */
  method ParseComponent(inp: array<byte>, s: nat, end: nat) returns (next: nat, len: nat)
    requires s <= end <= inp.Length
    ensures len == Segment(inp[s..end]) && next == s + len + (if s + len < end then 1 else 0)
  {
    len := 0;
    while s + len < end && inp[s + len] != SLASH
      invariant 0 <= len <= end - s
      invariant len + Segment(inp[s + len..end]) == Segment(inp[s..end])
    {
      assert inp[s + len..end][1..] == inp[s + len + 1..end];
      len := len + 1;
    }
    next := if s + len < end then s + len + 1 else s + len;
  }

  /** Backtracks from `d` over what has been written. */
  method Backtrack(out: array<byte>, start: nat) returns (d: nat)
    requires start <= out.Length
    ensures d <= start
    ensures out[..d] == Write(out[..start], [DOT, DOT], [])
  {
    d := start;
    if d > 1 && out[d - 1] == SLASH {
      d := d - 1;
      assert out[..d] == out[..start][..d];
    }
    while d > 0 && out[d - 1] != SLASH
      invariant d <= start
      invariant Back(out[..d]) == Write(out[..start], [DOT, DOT], [])
    {
      assert out[..d][..d - 1] == out[..d - 1];
      d := d - 1;
    }
  }

  /** What one turn of the loop writes at `d` for the component `inp[s..s + len]`
      and the '/' after it, up to `next`. */
  method WriteComponent(inp: array<byte>, s: nat, len: nat, next: nat, out: array<byte>, d: nat) returns (d': nat)
    requires d <= s <= s + len <= next <= inp.Length && d + (next - s) <= out.Length
    modifies out
    ensures d' <= d + (next - s)
    ensures out[..d'] == Write(old(out[..d]), old(inp[s..s + len]), old(inp[s + len..next]))
    ensures out[d + (next - s)..] == old(out[d + (next - s)..])
  {
    var c := inp[s..s + len];
    d' := d;
    if c == [DOT] {
      // nothing to write
    } else if c == [DOT, DOT] {
      d' := Backtrack(out, d);
    } else {
      assert inp[s..next] == c + inp[s + len..next];
      Cut(out[..d], inp[s..next], out[d + (next - s)..]);
      Cut(out[..d], c, inp[s + len..next]);
      Memmove(out, d, inp, s, next - s);
      d' := d + (next - s);
    }
  }

  lemma ThreeParts(unread: bytes, path: bytes, s: nat, len: nat, next: nat)
    requires s + len <= next <= |path| && unread == path[s..]
    ensures unread == unread[..len] + unread[len..next - s] + unread[next - s..]
    ensures unread[next - s..] == path[next..]
  {
  }

  lemma NormalizingStart(path: bytes)
    ensures Normalizing(path, [], path, [])
  {
  }

  lemma NormalizingEnd(path: bytes, out: bytes, rest: bytes, output: bytes)
    requires path != [] && rest == [] && Normalizing(path, out, rest, output)
    ensures out == Normal(path)
  {
    assert [SLASH] + rest == [SLASH];
    SlashOnly(output);
  }

  /** The two arrays may be one: the write position never passes the read
      position, so nothing unread is overwritten. */
  method NormalizeUriPath(inp: array<byte>, inLen: nat, out: array<byte>) returns (ok: bool, outLen: nat)
    requires inLen <= inp.Length && inLen <= out.Length
    modifies out
    ensures ok == (inLen > 0 && old(inp[0]) == SLASH)
    ensures outLen <= inLen
    ensures out[..outLen] == if ok then Normal(old(inp[..inLen])) else []
    ensures out[inLen..] == old(out[inLen..])
  {
    hide RemoveDots, Normal, Write, Normalizing;
    if inLen == 0 || inp[0] != SLASH {
      return false, 0;
    }
    ghost var path, beyond, output := inp[..inLen], out[inLen..], [];
    NormalizingStart(path);
    var s: nat, d: nat := 0, 0;
    while s < inLen
      invariant d <= s <= inLen && inp[s..inLen] == path[s..] && out[inLen..] == beyond
      invariant Normalizing(path, out[..d], path[s..], output)
    {
      var next, len := ParseComponent(inp, s, inLen);
      ghost var c, slash, rest := inp[s..s + len], inp[s + len..next], inp[next..inLen];
      ThreeParts(inp[s..inLen], path, s, len, next);
      assert inp[s..inLen][..len] == c && inp[s..inLen][len..next - s] == slash && inp[s..inLen][next - s..] == rest;
      output := NormalizingNext(path, out[..d], output, c, slash, rest);
      d := WriteComponent(inp, s, len, next, out, d);
      assert inp[next..inLen] == rest;
      s := next;
    }
    NormalizingEnd(path, out[..d], path[s..], output);
    NormalForm(path);
    if d == 0 {
      // Here the source writes a single '/', but something has always been written.
      assert false;
    }
    return true, d;
  }
}
