/** Host names in DNS packets (section 4.1.4 of RFC 1035) as 3rd_party/mongoose.c
    encodes and expands them. */
module DnsNames {
  import opened Bytes
  import opened Mbufs
  const DOT: byte := '.' as int

  /** `strchr(name, '.')`, or the end of the name. */
  function FirstDot(name: bytes): (n: nat)
    ensures n <= |name| && DOT !in name[..n] && (n < |name| ==> name[n] == DOT)
  {
    if name == [] || name[0] == DOT then 0
    else
      assert name[..1 + FirstDot(name[1..])] == [name[0]] + name[1..][..FirstDot(name[1..])];
      1 + FirstDot(name[1..])
  }

  function Labels(name: bytes): (r: seq<bytes>)
    ensures r != []
    decreases |name|
  {
    var n := FirstDot(name);
    if n == |name| then [name] else [name[..n]] + Labels(name[n + 1..])
  }

  /** A name with a '.' after each label. */
  function Dotted(labels: seq<bytes>): bytes {
    if labels == [] then [] else labels[0] + [DOT] + Dotted(labels[1..])
  }

  lemma {:induction false} LabelsJoin(name: bytes)
    ensures Dotted(Labels(name)) == name + [DOT]
    decreases |name|
  {
    hide FirstDot;
    var n := FirstDot(name);
    if n == |name| {
      assert Labels(name)[1..] == [] && Dotted([]) == [];
    } else {
      var rest := name[n + 1..];
      LabelsJoin(rest);
      assert Labels(name)[1..] == Labels(rest) && Labels(name)[0] == name[..n];
      assert name == name[..n] + [DOT] + rest;
      Cut(name[..n] + [DOT], rest, [DOT]);
    }
  }

  /** The labels as far as they are written: the first one that is too long
      ends it. */
  function EncodeLabels(labels: seq<bytes>): bytes {
    if labels == [] || |labels[0]| > 127 then [] else [|labels[0]|] + labels[0] + EncodeLabels(labels[1..])
  }

  predicate Fit(labels: seq<bytes>) {
    forall l | l in labels :: |l| <= 127
  }

  /** Each label is written as its length and its octets, and the first one of more
      than 127 octets ends it. */
  lemma {:induction false} EncodeLabelsAt(front: seq<bytes>, l: bytes, rest: seq<bytes>)
    requires forall x | x in front :: |x| <= 127
    ensures EncodeLabels(front + [l] + rest)
         == EncodeLabels(front) + if |l| > 127 then [] else [|l|] + l + EncodeLabels(rest)
  {
    if front == [] {
      assert front + [l] + rest == [l] + rest && ([l] + rest)[1..] == rest;
    } else {
      assert front[0] in front && forall x | x in front[1..] :: x in front;
      EncodeLabelsAt(front[1..], l, rest);
      assert (front + [l] + rest)[1..] == front[1..] + [l] + rest && (front + [l] + rest)[0] == front[0];
    }
  }

  /** No label has a dot in it. */
  lemma {:induction false} LabelsHaveNoDots(name: bytes)
    ensures forall l | l in Labels(name) :: DOT !in l
    decreases |name|
  {
    var n := FirstDot(name);
    if n < |name| {
      LabelsHaveNoDots(name[n + 1..]);
    } else {
      assert name[..n] == name;
    }
  }

  function Encode(name: bytes): bytes {
    EncodeLabels(Labels(name)) + if Fit(Labels(name)) then [0] else []
  }

  /** A loop over a name has written `done` and has `rest` to go. */
  ghost predicate Encoding(name: bytes, done: bytes, rest: bytes) {
    && done + EncodeLabels(Labels(rest)) == EncodeLabels(Labels(name))
    && Fit(Labels(rest)) == Fit(Labels(name))
  }

  lemma FitHead(labels: seq<bytes>)
    requires labels != []
    ensures Fit(labels) <==> |labels[0]| <= 127 && Fit(labels[1..])
  {
    assert labels == [labels[0]] + labels[1..];
  }

  lemma EncodingNext(name: bytes, done: bytes, rest: bytes)
    requires Encoding(name, done, rest)
    ensures var n := FirstDot(rest);
            if n > 127 then done == Encode(name) && !Fit(Labels(name))
            else
              var done' := done + ([n] + rest[..n]);
              if n == |rest| then done' + [0] == Encode(name) && Fit(Labels(name))
              else Encoding(name, done', rest[n + 1..])
  {
    var n, labels := FirstDot(rest), Labels(rest);
    assert labels[0] == rest[..n] by { assert rest[..|rest|] == rest; }
    FitHead(labels);
    if n > 127 {
      assert done + [] == done && Encode(name) == EncodeLabels(Labels(name)) + [];
    } else {
      var chunk, more := [n] + rest[..n], EncodeLabels(labels[1..]);
      assert done + (chunk + more) == done + chunk + more;
      if n == |rest| {
        assert labels[1..] == [] && done + chunk + [] == done + chunk && Fit([]);
      } else {
        assert labels[1..] == Labels(rest[n + 1..]);
      }
    }
  }

  lemma EncodingStart(name: bytes)
    ensures Encoding(name, [], name)
  {
    assert [] + EncodeLabels(Labels(name)) == EncodeLabels(Labels(name));
  }

  lemma NoneTooLong(name: bytes)
    ensures Fit(Labels(name)) <==> !exists l :: l in Labels(name) && |l| > 127
  {
  }

  method EncodeName(io: Mbuf, name: bytes) returns (r: int)
    requires io.Valid()
    modifies io, io.buf
    ensures io.Valid() && (io.buf == old(io.buf) || fresh(io.buf))
    ensures io.Contents() == old(io.Contents()) + Encode(name)
    ensures if exists l :: l in Labels(name) && |l| > 127 then r == -1 else r == io.len - old(io.len)
  {
    hide Encoding, Labels, EncodeLabels, Fit, Encode;
    ghost var was, done: bytes := io.Contents(), [];
    EncodingStart(name);
    var pos, rest := io.len, name;
    while true
      invariant io.Valid() && (io.buf == old(io.buf) || fresh(io.buf)) && io.Contents() == was + done
      invariant Encoding(name, done, rest)
      decreases |rest|
    {
      var n := FirstDot(rest);
      EncodingNext(name, done, rest);
      if n > 127 {
        NoneTooLong(name);
        return -1;
      }
      Cut(was + done, [n], rest[..n]);
      Cut(was, done, [n] + rest[..n]);
      io.Append([n]);
      io.Append(rest[..n]);
      done := done + ([n] + rest[..n]);
      if n == |rest| { break; }
      rest := rest[n + 1..];
    }
    io.Append([0]);
    Cut(was, done, [0]);
    NoneTooLong(name);
    return io.len - pos;
  }

  function Target(pkt: bytes, off: nat): nat
    requires off + 1 < |pkt|
  {
    FromBe16(pkt[off] % 64, pkt[off + 1])
  }

  /** What expansion leaves: nothing when the packet is cut short, else the
      labels with their dots, and whether the name's end was reached. */
  datatype Expanded = Bad | Text(text: bytes, ended: bool)

  /** One turn of the loop: it is over, goes to a pointer's target, or goes on
      behind a label with the octets written for it. */
  datatype Turn = Done(outcome: Expanded) | Hop(target: nat) | Label(next: nat, chunk: bytes)

  function TurnAt(pkt: bytes, off: nat, room: nat): (t: Turn)
    requires off < |pkt|
    ensures t.Hop? ==> t.target < |pkt|
    ensures t.Label? ==> t.next < |pkt| && 0 < |t.chunk| <= room && t.chunk[|t.chunk| - 1] == DOT
    ensures t.Done? && t.outcome.Text? ==> |t.outcome.text| <= room && (t.outcome.ended ==> t.outcome.text == [])
  {
    var c := pkt[off];
    if c == 0 then Done(Text([], true))
    else if off + 1 >= |pkt| then Done(Bad)
    else if c >= 64 then if Target(pkt, off) >= |pkt| then Done(Bad) else Hop(Target(pkt, off))
    else
      var n: nat := if c > room then room else c;
      if off + 1 + n >= |pkt| then Done(Bad)
      else if n == room then Done(Text(pkt[off + 1..off + 1 + n], false))
      else Label(off + 1 + n, pkt[off + 1..off + 1 + n] + [DOT])
  }

  /** The loop is over after at most so many turns. */
  predicate Ends(pkt: bytes, off: nat, room: nat, turns: nat)
    requires off < |pkt|
    decreases turns
  {
    turns > 0 &&
    match TurnAt(pkt, off, room)
    case Done(_) => true
    case Hop(target) => Ends(pkt, target, room, turns - 1)
    case Label(next, chunk) => Ends(pkt, next, room - |chunk|, turns - 1)
  }

  function After(front: bytes, e: Expanded): Expanded {
    match e
    case Bad => Bad
    case Text(text, ended) => Text(front + text, ended)
  }

  function Expand(pkt: bytes, off: nat, room: nat, ghost turns: nat): (r: Expanded)
    requires off < |pkt| && Ends(pkt, off, room, turns)
    ensures r.Text? ==> |r.text| <= room && (r.ended && r.text != [] ==> r.text[|r.text| - 1] == DOT)
    decreases turns
  {
    match TurnAt(pkt, off, room)
    case Done(outcome) => outcome
    case Hop(target) => Expand(pkt, target, room, turns - 1)
    case Label(next, chunk) => After(chunk, Expand(pkt, next, room - |chunk|, turns - 1))
  }

  lemma EndsStep(pkt: bytes, off: nat, room: nat, turns: nat)
    requires off < |pkt|
    ensures Ends(pkt, off, room, turns) <==>
            && turns > 0
            && match TurnAt(pkt, off, room)
               case Done(_) => true
               case Hop(target) => Ends(pkt, target, room, turns - 1)
               case Label(next, chunk) => Ends(pkt, next, room - |chunk|, turns - 1)
  {
    hide TurnAt;
  }

  /** One turn of the loop, as `Expand` sees it. */
  lemma ExpandStep(pkt: bytes, off: nat, room: nat, turns: nat)
    requires off < |pkt| && Ends(pkt, off, room, turns)
    ensures turns > 0
    ensures match TurnAt(pkt, off, room)
            case Done(outcome) => Expand(pkt, off, room, turns) == outcome
            case Hop(target) =>
              Ends(pkt, target, room, turns - 1) && Expand(pkt, off, room, turns) == Expand(pkt, target, room, turns - 1)
            case Label(next, chunk) =>
              && Ends(pkt, next, room - |chunk|, turns - 1)
              && Expand(pkt, off, room, turns) == After(chunk, Expand(pkt, next, room - |chunk|, turns - 1))
  {
    hide TurnAt, After;
  }

  /** The bound on turns does not matter. */
  lemma {:induction false} SameOutcome(pkt: bytes, off: nat, room: nat, m: nat, n: nat)
    requires off < |pkt| && Ends(pkt, off, room, m) && Ends(pkt, off, room, n)
    ensures Expand(pkt, off, room, m) == Expand(pkt, off, room, n)
    decreases m
  {
    hide TurnAt, Ends, Expand, After;
    ExpandStep(pkt, off, room, m);
    ExpandStep(pkt, off, room, n);
    match TurnAt(pkt, off, room)
    case Done(_) =>
    case Hop(target) => SameOutcome(pkt, target, room, m - 1, n - 1);
    case Label(next, chunk) => SameOutcome(pkt, next, room - |chunk|, m - 1, n - 1);
  }

  lemma AfterAfter(a: bytes, b: bytes, e: Expanded)
    ensures After(a, After(b, e)) == After(a + b, e)
  {
    if e.Text? {
      Cut(a, b, e.text);
    }
  }

  // When the loop ends

  /** Where the loop is after `k` turns, and what it has written by then. */
  datatype Place = Place(off: nat, room: nat, written: bytes)

  function Further(chunk: bytes, place: Option<Place>): Option<Place> {
    if place.None? then None else Some(place.value.(written := chunk + place.value.written))
  }

  /** On any packet, what has been written and the room left make up the room
      that there was. */
  function Follow(pkt: bytes, off: nat, room: nat, k: nat): (r: Option<Place>)
    requires off < |pkt|
    ensures r.Some? ==> r.value.off < |pkt| && |r.value.written| + r.value.room == room
    decreases k
  {
    if k == 0 then Some(Place(off, room, []))
    else
      match TurnAt(pkt, off, room)
      case Done(_) => None
      case Hop(target) => Follow(pkt, target, room, k - 1)
      case Label(next, chunk) =>
        Further(chunk, Follow(pkt, next, room - |chunk|, k - 1))
  }

  lemma FollowStep(pkt: bytes, off: nat, room: nat, k: nat)
    requires off < |pkt|
    ensures k == 0 ==> Follow(pkt, off, room, k) == Some(Place(off, room, []))
    ensures k > 0 ==>
              match TurnAt(pkt, off, room)
              case Done(_) => Follow(pkt, off, room, k) == None
              case Hop(target) => Follow(pkt, off, room, k) == Follow(pkt, target, room, k - 1)
              case Label(next, chunk) =>
                Follow(pkt, off, room, k) == Further(chunk, Follow(pkt, next, room - |chunk|, k - 1))
  {
    hide TurnAt;
  }

  predicate IsPointer(pkt: bytes, off: nat) {
    off + 1 < |pkt| && pkt[off] >= 64 && Target(pkt, off) < |pkt|
  }

  /** The offset after `k` pointers and nothing else. */
  function Hops(pkt: bytes, off: nat, k: nat): (r: Option<nat>)
    requires off < |pkt|
    ensures r.Some? ==> r.value < |pkt|
    decreases k
  {
    if k == 0 then Some(off) else if IsPointer(pkt, off) then Hops(pkt, Target(pkt, off), k - 1) else None
  }

  ghost predicate OnCycle(pkt: bytes, off: nat)
    requires off < |pkt|
  {
    exists k: nat :: k > 0 && Hops(pkt, off, k) == Some(off)
  }

  /** The loop comes to a pointer from which pointers alone lead back to it. */
  ghost predicate Trapped(pkt: bytes, off: nat, room: nat)
    requires off < |pkt|
  {
    exists k: nat :: Follow(pkt, off, room, k).Some? && OnCycle(pkt, Follow(pkt, off, room, k).value.off)
  }

  lemma {:induction false} HopsEnd(pkt: bytes, off: nat, room: nat, k: nat, turns: nat)
    requires off < |pkt| && Hops(pkt, off, k).Some? && Ends(pkt, off, room, turns)
    ensures turns > k && Ends(pkt, Hops(pkt, off, k).value, room, turns - k)
    decreases k
  {
    if k > 0 {
      HopsEnd(pkt, Target(pkt, off), room, k - 1, turns - 1);
    }
  }

  lemma {:induction false} CycleNeverEnds(pkt: bytes, off: nat, room: nat, turns: nat)
    requires off < |pkt| && OnCycle(pkt, off)
    ensures !Ends(pkt, off, room, turns)
    decreases turns
  {
    hide Ends, Hops;
    if Ends(pkt, off, room, turns) {
      var k: nat :| k > 0 && Hops(pkt, off, k) == Some(off);
      HopsEnd(pkt, off, room, k, turns);
      CycleNeverEnds(pkt, off, room, turns - k);
    }
  }

  lemma {:induction false} FollowEnds(pkt: bytes, off: nat, room: nat, k: nat, turns: nat)
    requires off < |pkt| && Follow(pkt, off, room, k).Some? && Ends(pkt, off, room, turns)
    ensures var p := Follow(pkt, off, room, k).value; turns > k && Ends(pkt, p.off, p.room, turns - k)
    decreases k
  {
    hide TurnAt, Ends, Follow;
    FollowStep(pkt, off, room, k);
    EndsStep(pkt, off, room, turns);
    if k > 0 {
      match TurnAt(pkt, off, room)
      case Hop(target) => FollowEnds(pkt, target, room, k - 1, turns - 1);
      case Label(next, chunk) => FollowEnds(pkt, next, room - |chunk|, k - 1, turns - 1);
    }
  }

  lemma {:induction false} HopsFollow(pkt: bytes, off: nat, room: nat, k: nat)
    requires off < |pkt| && Hops(pkt, off, k).Some?
    ensures Follow(pkt, off, room, k) == Some(Place(Hops(pkt, off, k).value, room, []))
    decreases k
  {
    if k > 0 {
      HopsFollow(pkt, Target(pkt, off), room, k - 1);
    }
  }

  lemma {:induction false} HopsMore(pkt: bytes, off: nat, j: nat, k: nat)
    requires off < |pkt| && Hops(pkt, off, j).Some?
    ensures Hops(pkt, off, j + k) == Hops(pkt, Hops(pkt, off, j).value, k)
    decreases j
  {
    hide Target;
    if j > 0 {
      HopsMore(pkt, Target(pkt, off), j - 1, k);
    }
  }

  lemma {:induction false} FollowMore(pkt: bytes, off: nat, room: nat, j: nat, k: nat)
    requires off < |pkt| && Follow(pkt, off, room, j).Some?
    ensures var p := Follow(pkt, off, room, j).value;
            var q, r := Follow(pkt, p.off, p.room, k), Follow(pkt, off, room, j + k);
            (q.Some? <==> r.Some?) && (q.Some? ==> q.value.off == r.value.off && q.value.room == r.value.room)
    decreases j
  {
    hide TurnAt, Follow;
    FollowStep(pkt, off, room, j);
    FollowStep(pkt, off, room, j + k);
    if j > 0 {
      match TurnAt(pkt, off, room)
      case Hop(target) => FollowMore(pkt, target, room, j - 1, k);
      case Label(next, chunk) => FollowMore(pkt, next, room - |chunk|, j - 1, k);
    }
  }

  lemma {:induction false} HopsBack(pkt: bytes, off: nat, room: nat, k: nat, turns: nat)
    requires off < |pkt| && Hops(pkt, off, k).Some? && Ends(pkt, Hops(pkt, off, k).value, room, turns)
    ensures Ends(pkt, off, room, turns + k)
    decreases k
  {
    if k > 0 {
      HopsBack(pkt, Target(pkt, off), room, k - 1, turns);
    }
  }

  /** There are no more different numbers below `n` than `n`. */
  lemma {:induction false} DistinctBelow(s: seq<nat>, n: nat)
    requires forall i | 0 <= i < |s| :: s[i] < n
    requires forall i, j | 0 <= i < j < |s| :: s[i] != s[j]
    ensures |s| <= n
    decreases n
  {
    if |s| > 0 {
      assert s[0] < n;
      if i :| 0 <= i < |s| && s[i] == n - 1 {
        DistinctBelow(s[..i] + s[i + 1..], n - 1);
      } else {
        DistinctBelow(s, n - 1);
      }
    }
  }

  lemma Returns(pkt: bytes, off: nat, k: nat)
    requires off < |pkt| && k > 0 && Hops(pkt, off, k) == Some(off)
    ensures OnCycle(pkt, off)
  {
  }

  lemma OneMoreHop(pkt: bytes, off: nat, k: nat)
    requires off < |pkt| && Hops(pkt, off, k).Some? && IsPointer(pkt, Hops(pkt, off, k).value)
    ensures Hops(pkt, off, k + 1).Some?
  {
    HopsMore(pkt, off, k, 1);
    assert Hops(pkt, Target(pkt, Hops(pkt, off, k).value), 0).Some?;
  }

  /** Pointers from `off` lead to something else, unless they lead round. */
  lemma {:induction false} PointersStop(pkt: bytes, off: nat, seen: seq<nat>) returns (k: nat)
    requires off < |pkt| && Hops(pkt, off, |seen|).Some?
    requires forall i | 0 <= i < |seen| :: Hops(pkt, off, i) == Some(seen[i])
    requires forall i, j | 0 <= i < j < |seen| :: seen[i] != seen[j]
    requires forall i: nat | Hops(pkt, off, i).Some? :: !OnCycle(pkt, Hops(pkt, off, i).value)
    ensures Hops(pkt, off, k).Some? && !IsPointer(pkt, Hops(pkt, off, k).value)
    decreases |pkt| - |seen|
  {
    hide Hops, OnCycle, IsPointer;
    k := |seen|;
    var o := Hops(pkt, off, k).value;
    if IsPointer(pkt, o) {
      OneMoreHop(pkt, off, k);
      forall i | 0 <= i < k ensures seen[i] != o {
        if seen[i] == o {
          HopsMore(pkt, off, i, k - i);
          Returns(pkt, o, k - i);
        }
      }
      DistinctBelow(seen + [o], |pkt|);
      k := PointersStop(pkt, off, seen + [o]);
    }
  }

  lemma NoHops(pkt: bytes, off: nat)
    requires off < |pkt|
    ensures Hops(pkt, off, 0) == Some(off)
  {
  }

  lemma StillUntrapped(pkt: bytes, off: nat, room: nat, k: nat)
    requires off < |pkt| && !Trapped(pkt, off, room) && Follow(pkt, off, room, k).Some?
    ensures var p := Follow(pkt, off, room, k).value; !Trapped(pkt, p.off, p.room)
  {
    hide Follow, OnCycle;
    var p := Follow(pkt, off, room, k).value;
    forall j: nat | Follow(pkt, p.off, p.room, j).Some?
      ensures !OnCycle(pkt, Follow(pkt, p.off, p.room, j).value.off)
    {
      FollowMore(pkt, off, room, k, j);
      assert Follow(pkt, off, room, k + j).Some?;
    }
  }

  lemma {:induction false} EndsUntrapped(pkt: bytes, off: nat, room: nat) returns (turns: nat)
    requires off < |pkt| && !Trapped(pkt, off, room)
    ensures Ends(pkt, off, room, turns)
    decreases room
  {
    hide Hops, Follow, OnCycle, Ends, IsPointer, TurnAt;
    forall i: nat | Hops(pkt, off, i).Some? ensures !OnCycle(pkt, Hops(pkt, off, i).value) {
      HopsFollow(pkt, off, room, i);
      assert Follow(pkt, off, room, i).Some?;
    }
    NoHops(pkt, off);
    var k := PointersStop(pkt, off, []);
    var o := Hops(pkt, off, k).value;
    HopsFollow(pkt, off, room, k);
    turns := EndsHere(pkt, off, room, k, o);
    HopsBack(pkt, off, room, k, turns);
    turns := turns + k;
  }

  lemma {:induction false} EndsHere(pkt: bytes, off: nat, room: nat, k: nat, o: nat) returns (turns: nat)
    requires off < |pkt| && !Trapped(pkt, off, room)
    requires o < |pkt| && Follow(pkt, off, room, k) == Some(Place(o, room, [])) && !IsPointer(pkt, o)
    ensures Ends(pkt, o, room, turns)
    decreases room, 0
  {
    match TurnAt(pkt, o, room)
    case Done(_) =>
      turns := 1;
    case Label(next, chunk) =>
      assert Follow(pkt, o, room, 1).value == Place(next, room - |chunk|, chunk + []);
      FollowMore(pkt, off, room, k, 1);
      StillUntrapped(pkt, off, room, k + 1);
      turns := EndsUntrapped(pkt, next, room - |chunk|);
      turns := turns + 1;
  }

  lemma EndsNotTrapped(pkt: bytes, off: nat, room: nat, turns: nat)
    requires off < |pkt| && Ends(pkt, off, room, turns)
    ensures !Trapped(pkt, off, room)
  {
    hide Ends, Follow, OnCycle;
    forall k: nat | Follow(pkt, off, room, k).Some?
      ensures !OnCycle(pkt, Follow(pkt, off, room, k).value.off)
    {
      FollowEnds(pkt, off, room, k, turns);
      var p := Follow(pkt, off, room, k).value;
      if OnCycle(pkt, p.off) {
        CycleNeverEnds(pkt, p.off, p.room, turns - k);
      }
    }
  }

  /** The loop ends exactly when it does not come to a cycle of pointers. */
  lemma EndsExactly(pkt: bytes, off: nat, room: nat)
    requires off < |pkt|
    ensures (exists turns: nat :: Ends(pkt, off, room, turns)) <==> !Trapped(pkt, off, room)
  {
    hide Ends, Trapped;
    if exists turns: nat :: Ends(pkt, off, room, turns) {
      var turns: nat :| Ends(pkt, off, room, turns);
      EndsNotTrapped(pkt, off, room, turns);
    } else if !Trapped(pkt, off, room) {
      var turns := EndsUntrapped(pkt, off, room);
    }
  }

  /** A pointer to itself is such a cycle. */
  lemma PointerToItself(rest: bytes, room: nat)
    ensures forall turns: nat :: !Ends([192, 0] + rest, 0, room, turns)
  {
    var pkt := [192, 0] + rest;
    assert Target(pkt, 0) == 0 && Hops(pkt, 0, 0) == Some(0);
    assert Hops(pkt, 0, 1) == Some(0);
    forall turns: nat ensures !Ends(pkt, 0, room, turns) {
      CycleNeverEnds(pkt, 0, room, turns);
    }
  }

  /** `starts` holds every offset at which reading a name that begins in it
      looks for a length or a pointer, and every pointer into the packet goes
      back. */
  ghost predicate PointersGoBack(pkt: bytes, starts: set<nat>) {
    forall o | o in starts && o + 1 < |pkt| ::
      && (pkt[o] >= 64 && Target(pkt, o) < |pkt| ==> Target(pkt, o) < o && Target(pkt, o) in starts)
      && (0 < pkt[o] < 64 ==> o + 1 + pkt[o] in starts)
  }

  /** Then the loop ends: labels lower the room left and pointers the offset. */
  lemma {:induction false} GoBackEnds(pkt: bytes, off: nat, room: nat, starts: set<nat>) returns (turns: nat)
    requires off < |pkt| && off in starts && PointersGoBack(pkt, starts)
    ensures Ends(pkt, off, room, turns)
    decreases room, off
  {
    match TurnAt(pkt, off, room)
    case Done(_) =>
      turns := 1;
    case Hop(target) =>
      turns := GoBackEnds(pkt, target, room, starts);
      turns := turns + 1;
    case Label(next, chunk) =>
      turns := GoBackEnds(pkt, next, room - |chunk|, starts);
      turns := turns + 1;
  }

  /** The loop has written `front` and `rest` is what it still has to do. */
  ghost predicate Expanding(whole: Expanded, front: bytes, rest: Expanded) {
    After(front, rest) == whole
  }

  lemma ExpandingStart(whole: Expanded)
    ensures Expanding(whole, [], whole)
  {
    assert whole.Text? ==> [] + whole.text == whole.text;
  }

  lemma ExpandingLabel(whole: Expanded, front: bytes, chunk: bytes, rest: Expanded)
    requires Expanding(whole, front, After(chunk, rest))
    ensures Expanding(whole, front + chunk, rest)
  {
    AfterAfter(front, chunk, rest);
  }

  lemma ExpandingEnd(whole: Expanded, front: bytes, chunk: bytes, ended: bool)
    requires Expanding(whole, front, Text(chunk, ended))
    ensures whole == Text(front + chunk, ended)
    ensures chunk == [] ==> front + chunk == front
  {
  }

  lemma ExpandingBad(whole: Expanded, front: bytes)
    requires Expanding(whole, front, Bad)
    ensures whole == Bad
  {
  }

  /** The name that the caller gets: the last dot gives way to a NUL. */
  function Name(e: Expanded): bytes {
    match e
    case Bad => []
    case Text(text, ended) => if ended && text != [] then text[..|text| - 1] else text
  }

  /** Expansion of the name at an offset that need not be in the packet. */
  function ExpandAt(pkt: bytes, name: nat, room: nat, ghost turns: nat): Expanded
    requires name < |pkt| ==> Ends(pkt, name, room, turns)
  {
    if name >= |pkt| then Bad else Expand(pkt, name, room, turns)
  }

  /** The caller's buffer holds the name, and a NUL behind it if its end was
      reached. */
  ghost predicate Given(e: Expanded, dst: bytes, r: nat) {
    && r <= |dst| && dst[..r] == Name(e)
    && (e.Text? && e.ended && e.text != [] ==> r < |dst| && dst[r] == 0)
  }

  method StoreChunk(dst: array<byte>, d: nat, chunk: bytes, dstLen: nat)
    requires d + |chunk| <= dstLen <= dst.Length
    modifies dst
    ensures dst[..d + |chunk|] == old(dst[..d]) + chunk && dst[dstLen..] == old(dst[dstLen..])
  {
    Memcpy(dst, d, chunk);
  }

  method StoreOctet(dst: array<byte>, d: nat, c: byte, dstLen: nat)
    requires d < dstLen <= dst.Length
    modifies dst
    ensures dst[..d + 1] == old(dst[..d]) + [c] && dst[dstLen..] == old(dst[dstLen..])
  {
    dst[d] := c;
  }

  /** Copies a label and, if there is room, the dot after it. */
  method CopyLabel(chunk: bytes, dst: array<byte>, d: nat, dstLen: nat) returns (d': nat, full: bool)
    requires d + |chunk| <= dstLen <= dst.Length
    modifies dst
    ensures full <==> d + |chunk| == dstLen
    ensures d' == d + |chunk| + (if full then 0 else 1) && dst[dstLen..] == old(dst[dstLen..])
    ensures dst[..d'] == old(dst[..d]) + if full then chunk else chunk + [DOT]
  {
    ghost var front := dst[..d];
    StoreChunk(dst, d, chunk, dstLen);
    d' := d + |chunk|;
    full := d' == dstLen;
    if !full {
      StoreOctet(dst, d', DOT, dstLen);
      d' := d' + 1;
      Cut(front, chunk, [DOT]);
    }
  }

  /** One turn of that loop, on any packet. */
  method TakeTurn(pkt: bytes, data: nat, dst: array<byte>, d: nat, dstLen: nat) returns (t: Turn, data': nat, d': nat)
    requires data < |pkt| && d <= dstLen <= dst.Length
    modifies dst
    ensures t == TurnAt(pkt, data, dstLen - d) && d <= d' <= dstLen && dst[dstLen..] == old(dst[dstLen..])
    ensures dst[..d'] == old(dst[..d]) + match t
                                         case Done(Text(text, _)) => text
                                         case Label(_, chunk) => chunk
                                         case _ => []
    ensures t.Hop? ==> data' == t.target
    ensures t.Label? ==> data' == t.next
  {
    hide Target;
    data', d' := data, d;
    var chunkLen: nat := pkt[data'];
    data' := data' + 1;
    if chunkLen == 0 { return Done(Text([], true)), data', d'; }
    var leeway := dstLen - d';
    if data' >= |pkt| { return Done(Bad), data', d'; }
    if chunkLen >= 64 {
      var off := Target(pkt, data' - 1);
      if off >= |pkt| { return Done(Bad), data', d'; }
      data' := off;
      return Hop(off), data', d';
    }
    if chunkLen > leeway {
      chunkLen := leeway;
    }
    if data' + chunkLen >= |pkt| { return Done(Bad), data', d'; }
    var chunk := pkt[data'..data' + chunkLen];
    data' := data' + chunkLen;
    var full;
    d', full := CopyLabel(chunk, dst, d', dstLen);
    if full { return Done(Text(chunk, false)), data', d'; }
    return Label(data', chunk + [DOT]), data', d';
  }

  lemma GivenBad(dst: bytes)
    ensures Given(Bad, dst, 0)
  {
  }

  lemma GivenFull(dst: bytes, r: nat)
    requires r <= |dst|
    ensures Given(Text(dst[..r], false), dst, r)
  {
  }

  /** The name's end: the last dot makes way for a NUL. */
  method Finish(dst: array<byte>, d: nat, dstLen: nat) returns (r: nat)
    requires d <= dstLen <= dst.Length
    modifies dst
    ensures Given(Text(old(dst[..d]), true), dst[..dstLen], r)
    ensures dst[dstLen..] == old(dst[dstLen..])
  {
    r := d;
    if r != 0 {
      r := r - 1;
      dst[r] := 0;
    }
  }

  /** The loop of the expansion. */
  method ExpandFrom(pkt: bytes, name: nat, dst: array<byte>, dstLen: nat, ghost turns: nat) returns (r: nat)
    requires dstLen <= dst.Length
    requires name < |pkt| && Ends(pkt, name, dstLen, turns)
    modifies dst
    ensures Given(Expand(pkt, name, dstLen, turns), dst[..dstLen], r)
    ensures dst[dstLen..] == old(dst[dstLen..])
  {
    hide Expand, Ends, After, Expanding, Given, Name, TurnAt;
    var data: nat, d: nat := name, 0;
    ghost var left := turns;
    ghost var whole, beyond := Expand(pkt, name, dstLen, turns), dst[dstLen..];
    ExpandingStart(whole);
    while true
      invariant data < |pkt| && d <= dstLen && Ends(pkt, data, dstLen - d, left) && dst[dstLen..] == beyond
      invariant Expanding(whole, dst[..d], Expand(pkt, data, dstLen - d, left))
      decreases left
    {
      ExpandStep(pkt, data, dstLen - d, left);
      left := left - 1;
      ghost var front := dst[..d];
      var t;
      t, data, d := TakeTurn(pkt, data, dst, d, dstLen);
      match t {
        case Done(Bad) =>
          ExpandingBad(whole, front);
          GivenBad(dst[..dstLen]);
          return 0;
        case Done(Text(text, ended)) =>
          ExpandingEnd(whole, front, text, ended);
          if ended { break; }
          GivenFull(dst[..dstLen], d);
          assert dst[..dstLen][..d] == dst[..d];
          return d;
        case Hop(_) =>
          assert dst[..d] == front;
        case Label(_, chunk) =>
          ExpandingLabel(whole, front, chunk, Expand(pkt, data, dstLen - d, left));
      }
    }
    r := Finish(dst, d, dstLen);
  }

  method UncompressName(pkt: bytes, name: nat, dst: array<byte>, dstLen: nat, ghost turns: nat) returns (r: nat)
    requires dstLen <= dst.Length
    requires name < |pkt| ==> Ends(pkt, name, dstLen, turns)
    modifies dst
    ensures Given(ExpandAt(pkt, name, dstLen, turns), dst[..dstLen], r)
    ensures dst[dstLen..] == old(dst[dstLen..])
  {
    if name >= |pkt| { return 0; }
    r := ExpandFrom(pkt, name, dst, dstLen, turns);
  }

  predicate Ordinary(labels: seq<bytes>) {
    forall l | l in labels :: 1 <= |l| <= 63
  }

  lemma OrdinaryParts(labels: seq<bytes>)
    requires labels != [] && Ordinary(labels)
    ensures 1 <= |labels[0]| <= 63 && Ordinary(labels[1..])
  {
    assert labels[0] in labels && forall l | l in labels[1..] :: l in labels;
  }

  /** The labels of the name at an offset, as section 4.1.4 of RFC 1035 has it:
      they end with a zero, or with a pointer to an earlier offset where the rest
      of the name stands. */
  predicate Stands(pkt: bytes, off: nat, labels: seq<bytes>)
    decreases |labels|, off
  {
    && off < |pkt|
    && if pkt[off] == 0 then labels == []
       else if pkt[off] >= 64 then
         off + 1 < |pkt| && Target(pkt, off) < off && Stands(pkt, Target(pkt, off), labels)
       else
         && labels != [] && |labels[0]| == pkt[off] && off + 1 + |labels[0]| < |pkt|
         && pkt[off + 1..off + 1 + |labels[0]|] == labels[0]
         && Stands(pkt, off + 1 + |labels[0]|, labels[1..])
  }

  lemma StandsLabel(pkt: bytes, off: nat, labels: seq<bytes>, rest: seq<bytes>)
    requires labels != [] && 1 <= |labels[0]| <= 63 && off + 1 + |labels[0]| < |pkt| && pkt[off] == |labels[0]|
    requires pkt[off + 1..off + 1 + |labels[0]|] == labels[0] && Stands(pkt, off + 1 + |labels[0]|, labels[1..] + rest)
    ensures Stands(pkt, off, labels + rest)
  {
    assert (labels + rest)[1..] == labels[1..] + rest && (labels + rest)[0] == labels[0];
  }

  lemma StandsPointer(pkt: bytes, off: nat, target: nat, labels: seq<bytes>)
    requires target < off && target < 0x4000 && off + 1 < |pkt|
    requires pkt[off] == 192 + target / 256 && pkt[off + 1] == target % 256 && Stands(pkt, target, labels)
    ensures Stands(pkt, off, labels)
  {
    assert Target(pkt, off) == target by {
      hide Stands;
      var high := target / 256;
      assert (192 + high) % 64 == high && target == high * 256 + target % 256;
    }
  }

  lemma StandsInside(pkt: bytes, off: nat, labels: seq<bytes>)
    requires Stands(pkt, off, labels)
    ensures off < |pkt|
  {
  }

  /** The offsets at which reading the name looks for a length or a pointer. */
  function Reads(pkt: bytes, off: nat, labels: seq<bytes>): (r: set<nat>)
    requires Stands(pkt, off, labels)
    ensures off in r
    decreases |labels|, off
  {
    {off} + if pkt[off] == 0 then {}
            else if pkt[off] >= 64 then Reads(pkt, Target(pkt, off), labels)
            else Reads(pkt, off + 1 + |labels[0]|, labels[1..])
  }

  lemma {:induction false} ReadsGoBack(pkt: bytes, off: nat, labels: seq<bytes>)
    requires Stands(pkt, off, labels)
    ensures PointersGoBack(pkt, Reads(pkt, off, labels))
    decreases |labels|, off
  {
    if pkt[off] >= 64 {
      ReadsGoBack(pkt, Target(pkt, off), labels);
    } else if pkt[off] > 0 {
      ReadsGoBack(pkt, off + 1 + |labels[0]|, labels[1..]);
    }
  }

  /** The turn of the loop at a name. */
  lemma TurnStands(pkt: bytes, off: nat, labels: seq<bytes>, room: nat)
    requires Stands(pkt, off, labels)
    ensures off < |pkt|
    ensures pkt[off] == 0 ==> labels == [] && TurnAt(pkt, off, room) == Done(Text([], true))
    ensures pkt[off] >= 64 ==> off + 1 < |pkt| && TurnAt(pkt, off, room) == Hop(Target(pkt, off))
    ensures 0 < pkt[off] < 64 ==>
              && labels != []
              && TurnAt(pkt, off, room) ==
                 if |labels[0]| >= room then Done(Text(labels[0][..room], false))
                 else Label(off + 1 + |labels[0]|, labels[0] + [DOT])
  {
    hide Target;
    if 0 < pkt[off] < 64 && |labels[0]| >= room {
      assert pkt[off + 1..off + 1 + |labels[0]|][..room] == pkt[off + 1..off + 1 + room];
    }
  }

  lemma DottedParts(labels: seq<bytes>)
    ensures Dotted(labels) == if labels == [] then [] else labels[0] + [DOT] + Dotted(labels[1..])
  {
  }

  /** What fits of a label, its dot and the rest. */
  lemma CutAfter(first: bytes, rest: bytes, room: nat)
    ensures var d := first + [DOT] + rest;
            if |first| >= room then |d| > room && d[..room] == first[..room]
            else
              var left := room - |first| - 1;
              && (|d| <= room <==> |rest| <= left)
              && (|d| > room ==> d[..room] == first + [DOT] + rest[..left])
  {
  }

  lemma {:induction false} ExpandStands(pkt: bytes, off: nat, labels: seq<bytes>, room: nat, turns: nat)
    requires Stands(pkt, off, labels) && Ends(pkt, off, room, turns)
    ensures var d := Dotted(labels);
            Expand(pkt, off, room, turns) == if |d| <= room then Text(d, true) else Text(d[..room], false)
    decreases turns
  {
    hide Expand, Ends, Dotted, TurnAt, Target;
    ExpandStep(pkt, off, room, turns);
    TurnStands(pkt, off, labels, room);
    DottedParts(labels);
    if pkt[off] >= 64 {
      ExpandStands(pkt, Target(pkt, off), labels, room, turns - 1);
    } else if pkt[off] > 0 {
      var n := |labels[0]|;
      CutAfter(labels[0], Dotted(labels[1..]), room);
      if n < room {
        ExpandStands(pkt, off + 1 + n, labels[1..], room - n - 1, turns - 1);
      }
    }
  }

  lemma NoLabels()
    ensures EncodeLabels([]) == []
  {
  }

  lemma EncodedParts(labels: seq<bytes>, post: bytes)
    requires labels != [] && 1 <= |labels[0]| <= 63
    ensures EncodeLabels(labels) + post == [|labels[0]|] + labels[0] + (EncodeLabels(labels[1..]) + post)
    ensures |EncodeLabels(labels)| == 1 + |labels[0]| + |EncodeLabels(labels[1..])|
  {
    var more := EncodeLabels(labels[1..]);
    assert EncodeLabels(labels) == [|labels[0]|] + labels[0] + more;
    assert [|labels[0]|] + labels[0] + more + post == [|labels[0]|] + labels[0] + (more + post);
  }

  lemma EncodedFirst(pkt: bytes, off: nat, labels: seq<bytes>, post: bytes)
    requires off <= |pkt| && pkt[off..] == EncodeLabels(labels) + post
    requires labels != [] && Ordinary(labels) && post != []
    ensures var n := |labels[0]|;
            && 1 <= n <= 63 && Ordinary(labels[1..]) && off + 1 + n < |pkt| && pkt[off] == n
            && |EncodeLabels(labels)| == 1 + n + |EncodeLabels(labels[1..])|
            && pkt[off + 1..off + 1 + n] == labels[0]
            && pkt[off + 1 + n..] == EncodeLabels(labels[1..]) + post
  {
    OrdinaryParts(labels);
    EncodedParts(labels, post);
    hide EncodeLabels, Ordinary;
    CutAt(pkt, off, [|labels[0]|], labels[0], EncodeLabels(labels[1..]) + post);
    assert pkt[off] == pkt[off..off + 1][0];
  }

  /** Encoded labels stand wherever they are put, followed by whatever name
      stands behind them. */
  lemma {:induction false} EncodedStands(pkt: bytes, off: nat, labels: seq<bytes>, rest: seq<bytes>, post: bytes)
    requires off <= |pkt| && pkt[off..] == EncodeLabels(labels) + post && Ordinary(labels)
    requires Stands(pkt, off + |EncodeLabels(labels)|, rest)
    ensures Stands(pkt, off, labels + rest)
    decreases |labels|
  {
    hide Stands, EncodeLabels, Ordinary;
    var end := off + |EncodeLabels(labels)|;
    StandsInside(pkt, end, rest);
    if labels == [] {
      NoLabels();
      assert labels + rest == rest;
    } else {
      assert post != [] by { assert |pkt[off..]| == |EncodeLabels(labels)| + |post|; }
      EncodedFirst(pkt, off, labels, post);
      var next := off + 1 + |labels[0]|;
      assert next + |EncodeLabels(labels[1..])| == end;
      EncodedStands(pkt, next, labels[1..], rest, post);
      StandsLabel(pkt, off, labels, rest);
    }
  }

  /** The name that labels spell. */
  function NameOf(labels: seq<bytes>): bytes {
    var d := Dotted(labels);
    if d == [] then [] else d[..|d| - 1]
  }

  /** Whatever name stands in a packet, compressed or not, uncompressing ends and
      gives it: whole to a larger buffer, and as much of it as fits to a smaller one. */
  lemma NameExpands(pkt: bytes, off: nat, labels: seq<bytes>, room: nat) returns (turns: nat)
    requires Stands(pkt, off, labels)
    ensures off < |pkt| && Ends(pkt, off, room, turns)
    ensures var name := NameOf(labels);
            Name(ExpandAt(pkt, off, room, turns)) == if room > |name| then name else name[..room]
  {
    StandsInside(pkt, off, labels);
    hide Expand, Ends, PointersGoBack, Stands, Reads;
    ReadsGoBack(pkt, off, labels);
    turns := GoBackEnds(pkt, off, room, Reads(pkt, off, labels));
    ExpandStands(pkt, off, labels, room, turns);
    var d, name := Dotted(labels), NameOf(labels);
    assert d == [] || d == name + [d[|name|]];
    assert room < |d| ==> d[..room] == name[..room];
  }

  lemma NameOfLabels(name: bytes)
    ensures NameOf(Labels(name)) == name
  {
    LabelsJoin(name);
  }

  lemma StandsEnd(pkt: bytes, off: nat)
    requires off < |pkt| && pkt[off] == 0
    ensures Stands(pkt, off, [])
  {
  }

  lemma Behind(front: bytes, code: bytes, ptr: bytes, post: bytes)
    ensures var pkt := front + code + ptr + post;
            pkt == front + code + (ptr + post) && pkt[|front|..] == code + (ptr + post) && |front + code| == |front| + |code|
  {
    Cut(front, code, ptr + post);
  }

  lemma WholeStands(pre: bytes, name: bytes, post: bytes)
    requires Ordinary(Labels(name))
    ensures Stands(pre + Encode(name) + post, |pre|, Labels(name)) && Encode(name) != []
  {
    var labels, pkt := Labels(name), pre + Encode(name) + post;
    var code, tail := EncodeLabels(labels), [0] + post;
    assert Fit(labels) && Encode(name) == code + [0];
    hide Stands, Labels, Ordinary, EncodeLabels, Encode;
    Behind(pre, code, [0], post);
    assert pkt == pre + code + [0] + post;
    assert pkt[|pre| + |code|] == 0;
    StandsEnd(pkt, |pre| + |code|);
    EncodedStands(pkt, |pre|, labels, [], tail);
    assert labels + [] == labels;
  }

  /** Expansion inverts encoding wherever the name stands in a packet. */
  lemma NameRoundTrip(pre: bytes, name: bytes, post: bytes, room: nat) returns (turns: nat)
    requires Ordinary(Labels(name))
    ensures var pkt := pre + Encode(name) + post;
            && |pre| < |pkt| && Ends(pkt, |pre|, room, turns)
            && Name(ExpandAt(pkt, |pre|, room, turns)) == if room > |name| then name else name[..room]
  {
    WholeStands(pre, name, post);
    hide Stands, Name, ExpandAt, Dotted, Ends;
    turns := NameExpands(pre + Encode(name) + post, |pre|, Labels(name), room);
    NameOfLabels(name);
  }

  /** A pointer in network byte order. */
  function Pointer(target: nat): bytes
    requires target < 0x4000
  {
    [192 + target / 256, target % 256]
  }

  lemma {:induction false} DottedAppend(a: seq<bytes>, b: seq<bytes>)
    ensures Dotted(a + b) == Dotted(a) + Dotted(b)
  {
    hide Dotted;
    DottedParts(a);
    if a == [] {
      assert a + b == b;
    } else {
      DottedParts(a + b);
      DottedAppend(a[1..], b);
      assert (a + b)[1..] == a[1..] + b && (a + b)[0] == a[0];
      Cut(a[0] + [DOT], Dotted(a[1..]), Dotted(b));
    }
  }

  lemma NameOfBoth(labels: seq<bytes>, name: bytes)
    ensures NameOf(labels + Labels(name)) == Dotted(labels) + name
  {
    DottedAppend(labels, Labels(name));
    LabelsJoin(name);
    Cut(Dotted(labels), name, [DOT]);
    assert Dotted(labels) + (name + [DOT]) == Dotted(labels) + name + [DOT];
  }

  lemma PointedStands(pre: bytes, name: bytes, mid: bytes, code: bytes, post: bytes)
    requires Ordinary(Labels(name)) && |pre| < 0x4000
    ensures var front := pre + Encode(name) + mid;
            Stands(front + code + Pointer(|pre|) + post, |front + code|, Labels(name))
  {
    hide Labels, Encode, Ordinary, Stands;
    var front, ptr := pre + Encode(name) + mid, Pointer(|pre|);
    var pkt, end := front + code + ptr + post, |front + code|;
    WholeStands(pre, name, mid + code + ptr + post);
    assert pkt == pre + Encode(name) + (mid + code + ptr + post);
    Cut(front + code, ptr, post);
    assert pkt[end..end + 2] == ptr;
    assert pkt[end] == pkt[end..end + 2][0] && pkt[end + 1] == pkt[end..end + 2][1];
    StandsPointer(pkt, end, |pre|, Labels(name));
  }

  /** Labels that end with a pointer to an earlier encoded name expand to the
      labels followed by that name. */
  lemma PointedNameRoundTrip(pre: bytes, name: bytes, mid: bytes, labels: seq<bytes>, post: bytes, room: nat)
    returns (turns: nat)
    requires Ordinary(Labels(name)) && Ordinary(labels) && |pre| < 0x4000
    ensures var off := |pre + Encode(name) + mid|;
            var pkt := pre + Encode(name) + mid + EncodeLabels(labels) + Pointer(|pre|) + post;
            var all := Dotted(labels) + name;
            && off < |pkt| && Ends(pkt, off, room, turns)
            && Name(ExpandAt(pkt, off, room, turns)) == if room > |all| then all else all[..room]
  {
    hide Name, ExpandAt, Stands, Ends, EncodeLabels, Pointer, Dotted, NameOf, Labels, Encode;
    var front, code := pre + Encode(name) + mid, EncodeLabels(labels);
    var pkt := front + code + Pointer(|pre|) + post;
    PointedStands(pre, name, mid, code, post);
    Behind(front, code, Pointer(|pre|), post);
    EncodedStands(pkt, |front|, labels, Labels(name), Pointer(|pre|) + post);
    turns := NameExpands(pkt, |front|, labels + Labels(name), room);
    NameOfBoth(labels, name);
  }
}
