/** Clients that exchange messages through a broker with direct exchanges: a
    client consumes only what somebody has published to the exchange and the
    routing key of its own mailbox. Messages may be lost, reordered and
    delivered more than once. */
module AmqpNetwork {
  import opened Bytes
  import opened AmqpSteps

  /** What is fixed for one client: its route and its expiration in milliseconds. */
  datatype Peer = Peer(route: Route, limit: int)

  type Net = seq<State>

  datatype Move = Move(who: nat, step: Step)

  predicate Sent(net: Net, m: Message, reply: bool) {
    exists j :: 0 <= j < |net| && Published(m, reply) in net[j].log
  }

  predicate AddressedTo(m: Message, peer: Peer) {
    m.ep == peer.route.predatorEp && m.rk == peer.route.predatorRk
  }

  /** The request is one that came from the other side. */
  predicate AnsweringIn(net: Net, move: Move)
    requires move.who < |net| && Enabled(net[move.who], move.step) && move.step.Send?
  {
    net[move.who].requests[move.step.r].corrId != ""
  }

  predicate NetEnabled(net: Net, peers: seq<Peer>, move: Move) {
    && move.who < |net| == |peers|
    && Enabled(net[move.who], move.step)
    && match move.step
       case NewRequest(route) => route == peers[move.who].route
       case Send(_, _, _, newId, _) => forall j | 0 <= j < |net| :: !Mentioned(net[j].log, newId) || AnsweringIn(net, move)
       case Consume(m) => (Sent(net, m, false) || Sent(net, m, true)) && AddressedTo(m, peers[move.who])
       case _ => true
  }

  function NetNext(net: Net, peers: seq<Peer>, move: Move): Net
    requires NetEnabled(net, peers, move)
  {
    net[move.who := Next(net[move.who], move.step, peers[move.who].limit)]
  }

  predicate CanRunNet(net: Net, peers: seq<Peer>, moves: seq<Move>)
    decreases moves
  {
    moves == [] || (NetEnabled(net, peers, moves[0]) && CanRunNet(NetNext(net, peers, moves[0]), peers, moves[1..]))
  }

  function RunNet(net: Net, peers: seq<Peer>, moves: seq<Move>): (r: Net)
    requires CanRunNet(net, peers, moves)
    ensures |r| == |net|
    decreases moves
  {
    if moves == [] then net else RunNet(NetNext(net, peers, moves[0]), peers, moves[1..])
  }

  function NetStart(peers: seq<Peer>): (net: Net)
    ensures |net| == |peers|
  {
    seq(|peers|, _ => START)
  }

  /** `m` goes where the reply-to of `q` says, with the id of `q`. */
  predicate Answers(m: Message, q: Message) {
    m.corrId == q.corrId && (m.ep, m.rk) == SplitReplyTo(q.replyTo)
  }

  ghost predicate AskedIn(log: seq<Event>, id: string) {
    exists a :: Asked(a, id) in log
  }

  ghost predicate AnswersSent(net: Net, m: Message) {
    exists q, reply :: Sent(net, q, reply) && Answers(m, q)
  }

  ghost predicate EventOk(net: Net, peers: seq<Peer>, i: nat, e: Event)
    requires i < |net| == |peers|
  {
    match e
    case Published(m, reply) =>
      if reply then m.replyTo == REPLIER && AnswersSent(net, m)
      else
        && m.replyTo == ReplyTo(peers[i].route)
        && m.ep == peers[i].route.targetEp && m.rk == peers[i].route.targetRk
        && AskedIn(net[i].log, m.corrId)
    case Consumed(m, _) => (Sent(net, m, false) || Sent(net, m, true)) && AddressedTo(m, peers[i])
    case _ => true
  }

  /** A request belongs to the client's own route or stands for a message. */
  ghost predicate RequestOk(net: Net, peers: seq<Peer>, i: nat, r: Request)
    requires i < |net| == |peers|
  {
    match r.route
    case Some(route) => route == peers[i].route && r.replyTo == ""
    case None => exists q, reply :: Sent(net, q, reply) && q.replyTo == r.replyTo && q.body == r.incoming && (r.corrId == "" || r.corrId == q.corrId)
  }

  ghost predicate NetInv(net: Net, peers: seq<Peer>) {
    && |net| == |peers|
    && (forall i | 0 <= i < |net| :: Inv(net[i]))
    && (forall i, e | 0 <= i < |net| && e in net[i].log :: EventOk(net, peers, i, e))
    && (forall i, k | 0 <= i < |net| && 0 <= k < |net[i].requests| :: RequestOk(net, peers, i, net[i].requests[k]))
    && (forall i, j, id | 0 <= i < |net| && 0 <= j < |net| && AskedIn(net[i].log, id) && AskedIn(net[j].log, id) :: i == j)
  }

  ghost predicate Grows(net: Net, later: Net) {
    |net| == |later| && forall i, e | 0 <= i < |net| && e in net[i].log :: e in later[i].log
  }

  lemma SentGrows(net: Net, later: Net, m: Message, reply: bool)
    requires Grows(net, later) && Sent(net, m, reply)
    ensures Sent(later, m, reply)
  {
    var j :| 0 <= j < |net| && Published(m, reply) in net[j].log;
    assert Published(m, reply) in later[j].log;
  }

  lemma EventStays(net: Net, later: Net, peers: seq<Peer>, i: nat, e: Event)
    requires Grows(net, later) && i < |net| == |peers| && EventOk(net, peers, i, e)
    ensures EventOk(later, peers, i, e)
  {
    hide Answers, Sent, ReplyTo, AddressedTo;
    match e
    case Published(m, reply) =>
      if reply {
        var q, r :| Sent(net, q, r) && Answers(m, q);
        SentGrows(net, later, q, r);
      } else {
        var a :| Asked(a, m.corrId) in net[i].log;
        assert Asked(a, m.corrId) in later[i].log;
      }
    case Consumed(m, _) =>
      if Sent(net, m, false) {
        SentGrows(net, later, m, false);
      } else {
        SentGrows(net, later, m, true);
      }
    case _ =>
  }

  lemma RequestStays(net: Net, later: Net, peers: seq<Peer>, i: nat, r: Request)
    requires Grows(net, later) && i < |net| == |peers| && RequestOk(net, peers, i, r)
    ensures RequestOk(later, peers, i, r)
  {
    hide Sent;
    if r.route.None? {
      var q, reply :| Sent(net, q, reply) && q.replyTo == r.replyTo && q.body == r.incoming
                      && (r.corrId == "" || r.corrId == q.corrId);
      SentGrows(net, later, q, reply);
    }
  }

  lemma NetGrows(net: Net, peers: seq<Peer>, move: Move)
    requires NetEnabled(net, peers, move)
    ensures Grows(net, NetNext(net, peers, move))
    ensures forall j | 0 <= j < |net| && j != move.who :: NetNext(net, peers, move)[j] == net[j]
    ensures NetNext(net, peers, move)[move.who] == Next(net[move.who], move.step, peers[move.who].limit)
  {
    hide Next;
    NextLog(net[move.who], move.step, peers[move.who].limit);
  }

  lemma ReplyAnswers(net: Net, peers: seq<Peer>, i: nat, r: Request, msg: string, newId: string)
    requires i < |net| == |peers| && RequestOk(net, peers, i, r) && r.corrId != "" && Sendable(Outgoing(r, msg, newId))
    ensures AnswersSent(net, Outgoing(r, msg, newId))
  {
    hide Sent;
    var m := Outgoing(r, msg, newId);
    assert SplitReplyTo("") == ("", "");
    if r.route.None? {
      var q, reply :| Sent(net, q, reply) && q.replyTo == r.replyTo && (r.corrId == "" || r.corrId == q.corrId);
      assert Answers(m, q);
    }
  }

  /** What a step logs is in order. */
  lemma NewEvents(net: Net, peers: seq<Peer>, move: Move, e: Event)
    requires NetInv(net, peers) && NetEnabled(net, peers, move)
    requires e in Events(net[move.who], move.step, peers[move.who].limit)
    ensures EventOk(NetNext(net, peers, move), peers, move.who, e)
  {
    hide Next, Inv, Mentioned, ReplyTo;
    var s, later := net[move.who], NetNext(net, peers, move);
    NetGrows(net, peers, move);
    NextLog(s, move.step, peers[move.who].limit);
    match move.step
    case Consume(m) =>
      EventStays(net, later, peers, move.who, Consumed(m, Stored));
    case Send(r, msg, _, newId, ok) =>
      assert RequestOk(net, peers, move.who, s.requests[r]);
      if s.requests[r].corrId == "" {
        assert Asked(r, newId) in later[move.who].log;
      } else if e.Published? {
        ReplyAnswers(net, peers, move.who, s.requests[r], msg, newId);
        EventStays(net, later, peers, move.who, e);
      }
    case _ =>
  }

  lemma NewRequests(net: Net, peers: seq<Peer>, move: Move, k: nat)
    requires NetInv(net, peers) && NetEnabled(net, peers, move)
    requires k < |Next(net[move.who], move.step, peers[move.who].limit).requests|
    ensures RequestOk(net, peers, move.who, Next(net[move.who], move.step, peers[move.who].limit).requests[k])
  {
    hide Inv, Mentioned, Sendable, EventOk, Sent, Outgoing;
    var s := net[move.who];
    if k < |s.requests| {
      assert RequestOk(net, peers, move.who, s.requests[k]);
    }
  }

  lemma NewAsk(net: Net, peers: seq<Peer>, move: Move, a: nat, id: string)
    requires NetEnabled(net, peers, move) && a < |net| && AskedIn(NetNext(net, peers, move)[a].log, id)
    ensures AskedIn(net[a].log, id)
         || (a == move.who && forall j | 0 <= j < |net| :: !Mentioned(net[j].log, id))
  {
    hide Next, Mentioned, Sendable, Outgoing;
    NetGrows(net, peers, move);
    NextLog(net[move.who], move.step, peers[move.who].limit);
    var asker :| Asked(asker, id) in NetNext(net, peers, move)[a].log;
    assert Asked(asker, id) in net[a].log
        || (a == move.who && Asked(asker, id) in Events(net[a], move.step, peers[a].limit));
  }

  lemma AskedIsMentioned(log: seq<Event>, id: string)
    requires AskedIn(log, id)
    ensures Mentioned(log, id)
  {
    var a :| Asked(a, id) in log;
    var i :| 0 <= i < |log| && log[i] == Asked(a, id);
    assert Mentions(log[i], id);
  }

  lemma AskedOnce(net: Net, peers: seq<Peer>, move: Move, a: nat, b: nat, id: string)
    requires NetInv(net, peers) && NetEnabled(net, peers, move) && a < |net| && b < |net|
    requires AskedIn(NetNext(net, peers, move)[a].log, id) && AskedIn(NetNext(net, peers, move)[b].log, id)
    ensures a == b
  {
    hide Inv, EventOk, RequestOk, NetNext, NetEnabled, AskedIn, Mentioned;
    NewAsk(net, peers, move, a, id);
    NewAsk(net, peers, move, b, id);
    if AskedIn(net[a].log, id) { AskedIsMentioned(net[a].log, id); }
    if AskedIn(net[b].log, id) { AskedIsMentioned(net[b].log, id); }
  }

  lemma NetInvNext(net: Net, peers: seq<Peer>, move: Move)
    requires NetInv(net, peers) && NetEnabled(net, peers, move)
    ensures NetInv(NetNext(net, peers, move), peers)
  {
    hide Inv, EventOk, RequestOk, Next, Enabled, AskedIn, Mentioned;
    var i, limit := move.who, peers[move.who].limit;
    var later := NetNext(net, peers, move);
    NetGrows(net, peers, move);
    NextLog(net[i], move.step, limit);
    InvNext(net[i], move.step, limit);
    forall j, e | 0 <= j < |later| && e in later[j].log ensures EventOk(later, peers, j, e) {
      if e in net[j].log {
        EventStays(net, later, peers, j, e);
      } else {
        NewEvents(net, peers, move, e);
      }
    }
    forall j, k | 0 <= j < |later| && 0 <= k < |later[j].requests| ensures RequestOk(later, peers, j, later[j].requests[k]) {
      if j == i {
        NewRequests(net, peers, move, k);
      }
      RequestStays(net, later, peers, j, later[j].requests[k]);
    }
    forall a, b, id | 0 <= a < |later| && 0 <= b < |later| && AskedIn(later[a].log, id) && AskedIn(later[b].log, id)
      ensures a == b
    {
      AskedOnce(net, peers, move, a, b, id);
    }
  }

  lemma NetInvStart(peers: seq<Peer>)
    ensures NetInv(NetStart(peers), peers)
  {
    InvStart();
  }

  lemma {:induction false} NetInvRun(net: Net, peers: seq<Peer>, moves: seq<Move>)
    requires NetInv(net, peers) && CanRunNet(net, peers, moves)
    ensures NetInv(RunNet(net, peers, moves), peers)
    decreases moves
  {
    hide NetInv, NetNext, NetEnabled;
    if moves != [] {
      NetInvNext(net, peers, moves[0]);
      NetInvRun(NetNext(net, peers, moves[0]), peers, moves[1..]);
    }
  }

  /** `m` answers a question that client `j` asked. */
  ghost predicate AnswersQuestion(net: Net, j: nat, m: Message)
    requires j < |net|
  {
    AskedIn(net[j].log, m.corrId) && exists q :: Published(q, false) in net[j].log && Answers(m, q)
  }

  /** Where the reply `m` to the request `r` goes: with the id of the question and
      at the address that the question's reply-to gives, to the client that asked;
      and that is its mailbox when the controller accepts its route. A request that
      was made of a reply is told by its reply-to: replying to it goes nowhere. */
  ghost predicate GoesBack(net: Net, peers: seq<Peer>, r: Request, m: Message)
    requires |net| == |peers|
  {
    if r.replyTo == REPLIER then (m.ep, m.rk) == (REPLIER, REPLIER) && exists q :: Sent(net, q, true) && Answers(m, q)
    else exists j: nat | j < |net| ::
           && AnswersQuestion(net, j, m) && r.replyTo == ReplyTo(peers[j].route)
           && (RouteAccepted(peers[j].route) ==> AddressedTo(m, peers[j]))
  }

  lemma NoReplyTo()
    ensures SplitReplyTo("") == ("", "")
  {
  }

  lemma RepliedMessage(net: Net, peers: seq<Peer>, i: nat, r: Request, msg: string, newId: string)
    returns (q: Message, reply: bool, j: nat)
    requires i < |net| == |peers| && RequestOk(net, peers, i, r) && r.corrId != "" && Sendable(Outgoing(r, msg, newId))
    ensures j < |net| && Published(q, reply) in net[j].log && q.replyTo == r.replyTo && Answers(Outgoing(r, msg, newId), q)
  {
    NoReplyTo();
    q, reply :| Sent(net, q, reply) && q.replyTo == r.replyTo && (r.corrId == "" || r.corrId == q.corrId);
    j :| 0 <= j < |net| && Published(q, reply) in net[j].log;
  }

  lemma ReplyToIsNot(route: Route)
    ensures ReplyTo(route) != REPLIER
  {
    assert DELIMITER !in REPLIER;
    assert ReplyTo(route)[|route.predatorEp|] == DELIMITER;
  }

  lemma ReplierHasNoDelimiter()
    ensures SplitReplyTo(REPLIER) == (REPLIER, REPLIER)
  {
    assert DELIMITER !in REPLIER;
  }

  lemma ReplyTowards(net: Net, peers: seq<Peer>, r: Request, m: Message, q: Message, reply: bool, j: nat)
    requires NetInv(net, peers) && j < |net| && Published(q, reply) in net[j].log && q.replyTo == r.replyTo && Answers(m, q)
    ensures GoesBack(net, peers, r, m)
  {
    hide Inv, RequestOk, AskedIn, ReplyTo, SplitReplyTo;
    assert EventOk(net, peers, j, Published(q, reply));
    ReplierHasNoDelimiter();
    ReplyToRoundTrip(peers[j].route);
    ReplyToIsNot(peers[j].route);
    if reply {
      assert Sent(net, q, true);
    } else {
      assert AnswersQuestion(net, j, m);
    }
  }

  /** In any run, a request that a client was handed carries the body, the reply-to
      and, until it is cleared, the id of a message that some client sent. */
  lemma RequestsWereSent(peers: seq<Peer>, moves: seq<Move>, i: nat, k: nat)
    requires CanRunNet(NetStart(peers), peers, moves)
    requires var net := RunNet(NetStart(peers), peers, moves);
             i < |net| && k < |net[i].requests| && net[i].requests[k].route.None?
    ensures var net := RunNet(NetStart(peers), peers, moves);
            var r := net[i].requests[k];
            exists q, reply :: Sent(net, q, reply) && q.body == r.incoming && q.replyTo == r.replyTo
                               && (r.corrId == "" || r.corrId == q.corrId)
  {
    hide RunNet, CanRunNet;
    NetInvStart(peers);
    NetInvRun(NetStart(peers), peers, moves);
    var net := RunNet(NetStart(peers), peers, moves);
    assert RequestOk(net, peers, i, net[i].requests[k]);
  }

  /** The return path, of every reply that a client can send in any run. */
  lemma RepliesGoBack(peers: seq<Peer>, moves: seq<Move>, i: nat, k: nat, msg: string, newId: string)
    requires CanRunNet(NetStart(peers), peers, moves)
    requires var net := RunNet(NetStart(peers), peers, moves);
             i < |net| && k < |net[i].requests| && net[i].requests[k].corrId != ""
             && Sendable(Outgoing(net[i].requests[k], msg, newId))
    ensures var net := RunNet(NetStart(peers), peers, moves);
            GoesBack(net, peers, net[i].requests[k], Outgoing(net[i].requests[k], msg, newId))
  {
    hide RunNet, CanRunNet, GoesBack, Outgoing, Sendable;
    NetInvStart(peers);
    NetInvRun(NetStart(peers), peers, moves);
    var net := RunNet(NetStart(peers), peers, moves);
    var r := net[i].requests[k];
    assert RequestOk(net, peers, i, r);
    hide RequestOk;
    var q, reply, j := RepliedMessage(net, peers, i, r, msg, newId);
    ReplyTowards(net, peers, r, Outgoing(r, msg, newId), q, reply, j);
  }

  /** What client `i` can have been given for an id that it asked for: a reply
      to its own question; its own question, when it asks its own mailbox; or,
      when its mailbox bears the name that replies are sent from, a reply to a
      reply. */
  ghost predicate TrueAnswer(net: Net, peers: seq<Peer>, i: nat, m: Message)
    requires i < |net| == |peers|
  {
    && AddressedTo(m, peers[i])
    && (|| (Sent(net, m, true) && AnswersQuestion(net, i, m))
        || (Published(m, false) in net[i].log && peers[i].route.targetEp == peers[i].route.predatorEp
            && peers[i].route.targetRk == peers[i].route.predatorRk)
        || (Sent(net, m, true) && peers[i].route.predatorEp == peers[i].route.predatorRk == REPLIER))
  }

  lemma StandingIs(log: seq<Event>, i: nat, id: string)
    requires Standing(log, i, id)
    ensures i < |log| && log[i].Consumed? && log[i].message.corrId == id
  {
  }

  lemma AnswerInNet(net: Net, peers: seq<Peer>, i: nat, k: nat)
    requires NetInv(net, peers) && i < |net| && k < |net[i].log| && net[i].log[k].Answered?
    ensures net[i].log[k].body == Latest(net[i].log[..k], net[i].log[k].id)
  {
    hide RequestOk, EventOk, Latest;
    assert Inv(net[i]);
    assert Justified(net[i].log[..k], net[i].log[k]);
  }

  /** An id is asked for by one client, so that a question with it is its own. */
  lemma QuestionFrom(net: Net, peers: seq<Peer>, i: nat, m: Message)
    requires NetInv(net, peers) && i < |net| && AskedIn(net[i].log, m.corrId) && Sent(net, m, false)
    ensures Published(m, false) in net[i].log
    ensures m.ep == peers[i].route.targetEp && m.rk == peers[i].route.targetRk
  {
    hide Inv, RequestOk, AnswersSent, AskedIn;
    var f :| 0 <= f < |net| && Published(m, false) in net[f].log;
    assert EventOk(net, peers, f, Published(m, false));
  }

  lemma ReplyToQuestion(net: Net, peers: seq<Peer>, i: nat, m: Message)
    requires NetInv(net, peers) && i < |net| && AskedIn(net[i].log, m.corrId) && Sent(net, m, true)
    ensures AnswersQuestion(net, i, m) || (m.ep, m.rk) == (REPLIER, REPLIER)
  {
    hide Inv, RequestOk, AskedIn;
    var f :| 0 <= f < |net| && Published(m, true) in net[f].log;
    assert EventOk(net, peers, f, Published(m, true));
    var q, reply :| Sent(net, q, reply) && Answers(m, q);
    var g :| 0 <= g < |net| && Published(q, reply) in net[g].log;
    assert EventOk(net, peers, g, Published(q, reply));
    ReplierHasNoDelimiter();
  }

  lemma ConsumedIsTrue(net: Net, peers: seq<Peer>, i: nat, e: Event)
    requires NetInv(net, peers) && i < |net| && e in net[i].log && e.Consumed? && AskedIn(net[i].log, e.message.corrId)
    ensures TrueAnswer(net, peers, i, e.message)
  {
    hide Inv, RequestOk, AnswersSent, AskedIn, Sent, AnswersQuestion;
    assert EventOk(net, peers, i, e);
    if Sent(net, e.message, false) {
      QuestionFrom(net, peers, i, e.message);
    } else {
      ReplyToQuestion(net, peers, i, e.message);
    }
  }

  /** From end to end: an answer that a client gets to an id that it asked for
      has come to its mailbox with that id, as a reply to its own question. */
  lemma AnswersComeFromReplies(peers: seq<Peer>, moves: seq<Move>, i: nat, k: nat)
    requires CanRunNet(NetStart(peers), peers, moves)
    requires var net := RunNet(NetStart(peers), peers, moves);
             && i < |net| && k < |net[i].log| && net[i].log[k].Answered? && net[i].log[k].body != ""
             && AskedIn(net[i].log, net[i].log[k].id)
    ensures var net := RunNet(NetStart(peers), peers, moves);
            var log := net[i].log;
            exists n | 0 <= n < k :: Standing(log[..k], n, log[k].id) && log[n].message.body == log[k].body
                                     && TrueAnswer(net, peers, i, log[n].message)
  {
    hide RunNet, CanRunNet, RequestOk, Inv, EventOk, Standing, Latest, TrueAnswer;
    NetInvStart(peers);
    NetInvRun(NetStart(peers), peers, moves);
    var net := RunNet(NetStart(peers), peers, moves);
    var log, id := net[i].log, net[i].log[k].id;
    AnswerInNet(net, peers, i, k);
    var n := LatestStands(log[..k], id);
    StandingIs(log[..k], n, id);
    assert log[n] in log;
    ConsumedIsTrue(net, peers, i, log[n]);
  }

  ghost predicate Goes(net: Net, peers: seq<Peer>, move: Move, later: Net) {
    NetEnabled(net, peers, move) && later == NetNext(net, peers, move)
  }

  /** `moves` lead from `net` to `later`. */
  ghost predicate Leads(net: Net, peers: seq<Peer>, moves: seq<Move>, later: Net) {
    CanRunNet(net, peers, moves) && RunNet(net, peers, moves) == later
  }

  lemma {:induction false} LeadsOn(net: Net, peers: seq<Peer>, move: Move, next: Net, moves: seq<Move>, later: Net)
    requires Goes(net, peers, move, next) && Leads(next, peers, moves, later)
    ensures Leads(net, peers, [move] + moves, later)
  {
    hide NetNext, NetEnabled;
    assert ([move] + moves)[0] == move && ([move] + moves)[1..] == moves;
  }

  /** The first client asks the second one, by names that can be published to. */
  predicate Paired(asker: Route, replier: Route) {
    && asker.targetEp == replier.predatorEp != "" && asker.targetRk == replier.predatorRk != ""
    && asker.predatorEp != "" && asker.predatorRk != "" && RouteAccepted(asker)
  }

  function Question(asker: Route, id: string, text: string): Message {
    Message(id, ReplyTo(asker), text, asker.targetEp, asker.targetRk)
  }

  function Reply(asker: Route, id: string, text: string): Message {
    Message(id, REPLIER, text, asker.predatorEp, asker.predatorRk)
  }

  /** The client that was asked, after handing the question on and replying. */
  function AfterReplying(asker: Route, id: string, question: string, answer: string): State {
    var q := Question(asker, id, question);
    State(Tables(map[id := ""], {}), [], [Incoming(q)], [Consumed(q, Dispatched), Published(Reply(asker, id, answer), true)], [])
  }

  /** The client that asked, when the answer that it fetched comes again. */
  function AfterRepetition(asker: Route, id: string, question: string, answer: string): State {
    var m := Reply(asker, id, answer);
    State(Tables(map[], {}), [], [Request(Some(asker), "", "", "", 0, false), Incoming(m)],
          [Asked(0, id), Published(Question(asker, id, question), false), Consumed(m, Stored), Answered(0, id, answer),
           Consumed(m, Dispatched)],
          [])
  }

  lemma {:induction false} SecondClient(peers: seq<Peer>, a0: State, id: string, question: string, answer: string)
    requires |peers| == 2 && Paired(peers[0].route, peers[1].route) && id != "" && answer != ""
    requires Published(Question(peers[0].route, id, question), false) in a0.log
    ensures var q := Question(peers[0].route, id, question);
            var b1 := State(Tables(map[], {}), [], [Incoming(q)], [Consumed(q, Dispatched)], []);
            && Goes([a0, START], peers, Move(1, Consume(q)), [a0, b1])
            && Goes([a0, b1], peers, Move(1, Send(0, answer, 0, id, true)), [a0, AfterReplying(peers[0].route, id, question, answer)])
  {
    hide ReplyTo, Mentioned, SplitReplyTo;
    var q := Question(peers[0].route, id, question);
    var b1 := State(Tables(map[], {}), [], [Incoming(q)], [Consumed(q, Dispatched)], []);
    ReplyToRoundTrip(peers[0].route);
    assert [a0, START][0] == a0 && Sent([a0, START], q, false);
    assert Next(START, Consume(q), peers[1].limit) == b1;
    assert Outgoing(Incoming(q), answer, id) == Reply(peers[0].route, id, answer);
    var step := Send(0, answer, 0, id, true);
    assert Enabled(b1, step) && Next(b1, step, peers[1].limit) == AfterReplying(peers[0].route, id, question, answer);
  }

  lemma FetchedTwice(asker: Route, id: string, question: string, answer: string, limit: int)
    requires id != "" && answer != ""
    ensures var m, a0 := Reply(asker, id, answer), AfterAsking(asker, question, 0, id);
            var a1 := Next(a0, Consume(m), limit);
            && Enabled(a1, Get(0))
            && Next(Next(a1, Get(0), limit), Consume(m), limit) == AfterRepetition(asker, id, question, answer)
  {
  }

  lemma {:induction false} FirstClient(peers: seq<Peer>, a: State, a': State, b: State, m: Message, step: Step)
    requires |peers| == 2 && AddressedTo(m, peers[0]) && Published(m, true) in b.log
    requires step == Consume(m) || step == Get(0)
    requires Enabled(a, step) && a' == Next(a, step, peers[0].limit)
    ensures Goes([a, b], peers, Move(0, step), [a', b])
  {
    hide Next, Enabled;
    assert [a, b][1] == b && Sent([a, b], m, true);
  }

  lemma {:induction false} FirstAsks(peers: seq<Peer>, question: string, id: string)
    requires |peers| == 2 && Paired(peers[0].route, peers[1].route) && id != "" && question != ""
    ensures var r := peers[0].route;
            var s := START.(requests := [Request(Some(r), "", "", "", 0, false)]);
            && Goes([START, START], peers, Move(0, NewRequest(r)), [s, START])
            && Goes([s, START], peers, Move(0, Send(0, question, 0, id, true)), [AfterAsking(r, question, 0, id), START])
  {
    hide ReplyTo;
    var s := START.(requests := [Request(Some(peers[0].route), "", "", "", 0, false)]);
    var step := Send(0, question, 0, id, true);
    assert Enabled(s, step) && Next(s, step, peers[0].limit) == AfterAsking(peers[0].route, question, 0, id);
    assert Next(START, NewRequest(peers[0].route), peers[0].limit) == s;
    assert [START, START][0 := s] == [s, START];
    hide Next, Enabled;
    var a0 := AfterAsking(peers[0].route, question, 0, id);
    assert [s, START][0 := a0] == [a0, START];
  }

  /** The first client may reply to a reply that came twice, and what it then
      publishes names no mailbox. */
  lemma {:induction false} ReplyToReply(asker: Route, id: string, question: string, answer: string, text: string, limit: int)
    requires id != "" && text != ""
    ensures var s, step := AfterRepetition(asker, id, question, answer), Send(1, text, 0, id, true);
            && |s.requests| == 2 && s.requests[1].replyTo == REPLIER && s.requests[1].corrId != "" && Enabled(s, step)
            && Published(Message(id, REPLIER, text, REPLIER, REPLIER), true) in Next(s, step, limit).log
  {
    hide ReplyTo, Mentioned, SplitReplyTo;
    var s, step, m := AfterRepetition(asker, id, question, answer), Send(1, text, 0, id, true),
                      Message(id, REPLIER, text, REPLIER, REPLIER);
    ReplierHasNoDelimiter();
    assert Outgoing(s.requests[1], text, id) == m;
    assert Events(s, step, limit) == [Published(m, true)];
    NextLog(s, step, limit);
  }

  lemma {:induction false} FirstReplies(peers: seq<Peer>, a: State, b: State, step: Step)
    requires |peers| == 2 && step.Send? && Enabled(a, step) && a.requests[step.r].corrId != ""
    ensures Goes([a, b], peers, Move(0, step), [Next(a, step, peers[0].limit), b])
  {
    hide Next, Mentioned;
    assert [a, b][0] == a;
  }

  lemma NoMoves(net: Net, peers: seq<Peer>)
    ensures Leads(net, peers, [], net)
  {
  }

  /** Fetch, the same reply once more, and a reply to it. */
  lemma {:induction false} AfterTheReply(peers: seq<Peer>, id: string, question: string, answer: string, text: string)
    returns (moves: seq<Move>, later: Net)
    requires |peers| == 2 && id != "" && answer != "" && text != ""
    ensures var asker := peers[0].route;
            Leads([AfterAsking(asker, question, 0, id), AfterReplying(asker, id, question, answer)], peers, moves, later)
    ensures |later| == 2 && Published(Message(id, REPLIER, text, REPLIER, REPLIER), true) in later[0].log
  {
    var asker, limit, step := peers[0].route, peers[0].limit, Send(1, text, 0, id, true);
    var m := Reply(asker, id, answer);
    var a0, b := AfterAsking(asker, question, 0, id), AfterReplying(asker, id, question, answer);
    assert b.log[1] == Published(m, true) && AddressedTo(m, peers[0]) && Enabled(a0, Consume(m));
    FetchedTwice(asker, id, question, answer, limit);
    var a1 := Next(a0, Consume(m), limit);
    var a2, a3 := Next(a1, Get(0), limit), AfterRepetition(asker, id, question, answer);
    assert Enabled(a2, Consume(m));
    ReplyToReply(asker, id, question, answer, text, limit);
    hide AfterAsking, AfterReplying, AfterRepetition, Next, Mentioned, Goes, Leads, Enabled, Reply, AddressedTo;
    FirstClient(peers, a0, a1, b, m, Consume(m));
    FirstClient(peers, a1, a2, b, m, Get(0));
    FirstClient(peers, a2, a3, b, m, Consume(m));
    FirstReplies(peers, a3, b, step);
    later := [Next(a3, step, limit), b];
    NoMoves(later, peers);
    LeadsOn([a3, b], peers, Move(0, step), later, [], later);
    LeadsOn([a2, b], peers, Move(0, Consume(m)), [a3, b], [Move(0, step)] + [], later);
    LeadsOn([a1, b], peers, Move(0, Get(0)), [a2, b], [Move(0, Consume(m))] + ([Move(0, step)] + []), later);
    moves := [Move(0, Get(0))] + ([Move(0, Consume(m))] + ([Move(0, step)] + []));
    LeadsOn([a0, b], peers, Move(0, Consume(m)), [a1, b], moves, later);
    moves := [Move(0, Consume(m))] + moves;
  }

  /** The exception to the return path is reached: ask, reply, fetch, the same
      reply once more from the broker, and a reply to it. */
  lemma {:induction false} ExceptionReached(peers: seq<Peer>, id: string, question: string, answer: string, text: string)
    returns (moves: seq<Move>, later: Net)
    requires |peers| == 2 && Paired(peers[0].route, peers[1].route)
    requires id != "" && question != "" && answer != "" && text != ""
    ensures Leads(NetStart(peers), peers, moves, later) && |later| == 2
    ensures Published(Message(id, REPLIER, text, REPLIER, REPLIER), true) in later[0].log
  {
    var asker, q := peers[0].route, Question(peers[0].route, id, question);
    var s0 := START.(requests := [Request(Some(asker), "", "", "", 0, false)]);
    var a0, b2 := AfterAsking(asker, question, 0, id), AfterReplying(asker, id, question, answer);
    var b1 := State(Tables(map[], {}), [], [Incoming(q)], [Consumed(q, Dispatched)], []);
    assert a0.log[1] == Published(q, false);
    FirstAsks(peers, question, id);
    SecondClient(peers, a0, id, question, answer);
    hide AfterAsking, AfterReplying, Goes, Leads, Question;
    moves, later := AfterTheReply(peers, id, question, answer, text);
    LeadsOn([a0, b1], peers, Move(1, Send(0, answer, 0, id, true)), [a0, b2], moves, later);
    moves := [Move(1, Send(0, answer, 0, id, true))] + moves;
    LeadsOn([a0, START], peers, Move(1, Consume(q)), [a0, b1], moves, later);
    moves := [Move(1, Consume(q))] + moves;
    LeadsOn([s0, START], peers, Move(0, Send(0, question, 0, id, true)), [a0, START], moves, later);
    moves := [Move(0, Send(0, question, 0, id, true))] + moves;
    LeadsOn([START, START], peers, Move(0, NewRequest(asker)), [s0, START], moves, later);
    moves := [Move(0, NewRequest(asker))] + moves;
    assert NetStart(peers) == [START, START];
  }
}
