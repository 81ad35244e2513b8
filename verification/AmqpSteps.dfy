/** The asynchronous request and response machine of
    communication/amqp_client_c.cpp on values: what one call does to the table
    of outstanding ids, the set of refused ids and a request, and runs of such
    calls with a log of what happened. */
module AmqpSteps {
  import opened Bytes
  const DELIMITER: char := '%'

  /** The names of SAmqpRouteParameters that the client uses. */
  datatype Route = Route(predatorEp: string, predatorRk: string, targetEp: string, targetRk: string)

  datatype Message = Message(corrId: string, replyTo: string, body: string, ep: string, rk: string)

  // The reply-to address

  function ReplyTo(route: Route): string {
    route.predatorEp + [DELIMITER] + route.predatorRk
  }

  /** `find(delimiter)`; |s| stands for npos. */
  function Find(s: string): (n: nat)
    ensures n <= |s| && DELIMITER !in s[..n] && (n < |s| ==> s[n] == DELIMITER)
  {
    if s == "" || s[0] == DELIMITER then 0
    else
      var n := 1 + Find(s[1..]);
      assert s[..n] == [s[0]] + s[1..][..n - 1];
      n
  }

  /** Without a delimiter both calls of `substr` give the whole string,
      because npos + 1 is 0. */
  function SplitReplyTo(replyTo: string): (string, string) {
    var n := Find(replyTo);
    if n == |replyTo| then (replyTo, replyTo) else (replyTo[..n], replyTo[n + 1..])
  }

  /** The check at the head of `configureRoute`: its six conjuncts are the same. */
  predicate RouteAccepted(route: Route) {
    DELIMITER !in route.predatorEp
  }

  lemma {:induction false} FindFirst(a: string, b: string)
    ensures Find(a + [DELIMITER] + b) == |a| <==> DELIMITER !in a
  {
    if a != "" {
      FindFirst(a[1..], b);
      assert (a + [DELIMITER] + b)[1..] == a[1..] + [DELIMITER] + b;
    }
  }

  /** Splitting gives the two names back exactly for the routes that the
      controller accepts, whatever the routing key. */
  lemma ReplyToRoundTrip(route: Route)
    ensures SplitReplyTo(ReplyTo(route)) == (route.predatorEp, route.predatorRk) <==> RouteAccepted(route)
  {
    FindFirst(route.predatorEp, route.predatorRk);
    Cut(route.predatorEp, [DELIMITER], route.predatorRk);
  }

  // What a client and a request hold

  datatype Tables = Tables(ready: map<string, string>, refused: set<string>)

  datatype Request = Request(route: Option<Route>, corrId: string, replyTo: string, incoming: string,
                             requestTime: int, timeouted: bool)

  datatype Outcome = Stored | Dropped | Dispatched

  function OutcomeOf(t: Tables, corrId: string): Outcome {
    if corrId !in t.ready then Dispatched else if corrId in t.refused then Dropped else Stored
  }

  /** `insert` leaves an entry that is there already alone. */
  function Insert(t: Tables, corrId: string): Tables {
    if corrId in t.ready then t else t.(ready := t.ready[corrId := ""])
  }

  function Deliver(t: Tables, m: Message): Tables {
    match OutcomeOf(t, m.corrId)
    case Stored => t.(ready := t.ready[m.corrId := m.body])
    case Dropped => t.(refused := t.refused - {m.corrId})
    case Dispatched => t
  }

  function Erase(t: Tables, corrId: string): Tables {
    t.(ready := t.ready - {corrId})
  }

  predicate IsReady(t: Tables, corrId: string) {
    corrId in t.ready && t.ready[corrId] != ""
  }

  predicate Expired(r: Request, now: int, limit: int) {
    now - r.requestTime > limit
  }

  /** The request that a message from the other side becomes. */
  function Incoming(m: Message): Request {
    Request(None, m.corrId, m.replyTo, m.body, 0, false)
  }

  const REPLIER := "i_am_replier"

  /** What `sendMessageAsync` publishes. */
  function Outgoing(r: Request, msg: string, newId: string): Message
    requires r.corrId == "" ==> r.route.Some?
  {
    if r.corrId == "" then Message(newId, ReplyTo(r.route.value), msg, r.route.value.targetEp, r.route.value.targetRk)
    else
      var to := SplitReplyTo(r.replyTo);
      Message(r.corrId, REPLIER, msg, to.0, to.1)
  }

  /** The assertions of `sendPackageAsync`. */
  predicate Sendable(m: Message) {
    m.body != "" && m.corrId != "" && m.ep != "" && m.rk != ""
  }

  // Runs

  type Observer = nat

  datatype Event =
    | Registered(observer: Observer)
    | Asked(asker: nat, id: string)
    | Published(message: Message, reply: bool)
    | Consumed(message: Message, outcome: Outcome)
    | TimedOut(request: nat, id: string)
    | Answered(request: nat, id: string, body: string)

  /** One call of an observer with the request that it is given. */
  datatype Call = Call(observer: Observer, request: Request)

  datatype State = State(tables: Tables, observers: seq<Observer>, requests: seq<Request>, log: seq<Event>, calls: seq<Call>)

  datatype Step =
    | AddObserver(observer: Observer)
    | NewRequest(route: Route)
    | Send(r: nat, msg: string, now: int, newId: string, ok: bool)
    | Consume(m: Message)
    | Check(r: nat, now: int)
    | Get(r: nat)

  const START := State(Tables(map[], {}), [], [], [], [])

  function CallsFor(observers: seq<Observer>, r: Request): seq<Call> {
    seq(|observers|, i requires 0 <= i < |observers| => Call(observers[i], r))
  }

  predicate Mentions(e: Event, id: string) {
    match e
    case Registered(_) => false
    case Asked(_, i) => i == id
    case Published(m, _) => m.corrId == id
    case Consumed(m, _) => m.corrId == id
    case TimedOut(_, i) => i == id
    case Answered(_, i, _) => i == id
  }

  predicate Mentioned(log: seq<Event>, id: string) {
    exists i :: 0 <= i < |log| && Mentions(log[i], id)
  }

  /** The assertions of the code hold, pointers are not null, and generated ids are new. */
  predicate Enabled(s: State, step: Step) {
    match step
    case AddObserver(_) => true
    case NewRequest(_) => true
    case Send(r, msg, _, newId, _) =>
      && r < |s.requests|
      && (s.requests[r].corrId == "" ==> s.requests[r].route.Some? && !Mentioned(s.log, newId))
      && Sendable(Outgoing(s.requests[r], msg, newId))
    case Consume(_) => true
    case Check(r, _) => r < |s.requests|
    case Get(r) => r < |s.requests| && s.requests[r].corrId in s.tables.ready
  }

  /** What a step adds to the log. */
  function Events(s: State, step: Step, limit: int): seq<Event>
    requires Enabled(s, step)
  {
    match step
    case AddObserver(o) => [Registered(o)]
    case NewRequest(_) => []
    case Send(r, msg, _, newId, ok) =>
      var asking := s.requests[r].corrId == "";
      (if asking then [Asked(r, newId)] else [])
      + (if ok then [Published(Outgoing(s.requests[r], msg, newId), !asking)] else [])
    case Consume(m) => [Consumed(m, OutcomeOf(s.tables, m.corrId))]
    case Check(r, now) => if Expired(s.requests[r], now, limit) then [TimedOut(r, s.requests[r].corrId)] else []
    case Get(r) => [Answered(r, s.requests[r].corrId, s.tables.ready[s.requests[r].corrId])]
  }

  function Next(s: State, step: Step, limit: int): State
    requires Enabled(s, step)
  {
    match step
    case AddObserver(o) => s.(observers := s.observers + [o], log := s.log + Events(s, step, limit))
    case NewRequest(route) => s.(requests := s.requests + [Request(Some(route), "", "", "", 0, false)])
    case Send(r, msg, now, newId, ok) =>
      var asking := s.requests[r].corrId == "";
      var m := Outgoing(s.requests[r], msg, newId);
      s.(tables := if ok then Insert(s.tables, m.corrId) else s.tables,
         requests := if asking then s.requests[r := s.requests[r].(corrId := newId, requestTime := now)] else s.requests,
         log := s.log + Events(s, step, limit))
    case Consume(m) =>
      var outcome := OutcomeOf(s.tables, m.corrId);
      var t := s.(tables := Deliver(s.tables, m), log := s.log + Events(s, step, limit));
      if outcome == Dispatched then
        t.(requests := s.requests + [Incoming(m)], calls := s.calls + CallsFor(s.observers, Incoming(m)))
      else t
    case Check(r, now) =>
      var id := s.requests[r].corrId;
      if Expired(s.requests[r], now, limit) then
        s.(tables := s.tables.(refused := s.tables.refused + {id}),
           requests := s.requests[r := s.requests[r].(corrId := "", timeouted := true)],
           log := s.log + Events(s, step, limit))
      else s
    case Get(r) =>
      var id := s.requests[r].corrId;
      s.(tables := Erase(s.tables, id),
         requests := s.requests[r := s.requests[r].(corrId := "")],
         log := s.log + Events(s, step, limit))
  }

  predicate CanRun(s: State, steps: seq<Step>, limit: int)
    decreases steps
  {
    steps == [] || (Enabled(s, steps[0]) && CanRun(Next(s, steps[0], limit), steps[1..], limit))
  }

  function Run(s: State, steps: seq<Step>, limit: int): State
    requires CanRun(s, steps, limit)
    decreases steps
  {
    if steps == [] then s else Run(Next(s, steps[0], limit), steps[1..], limit)
  }

  // Counting what the log says about one id

  datatype Kind = Received | Spoken | Filled | Kept | Refused | Handed | Replied | Expiry

  /** Only bodies that are not empty can be told from no answer. */
  predicate Is(e: Event, kind: Kind, id: string) {
    match kind
    case Received => e.Consumed? && e.message.corrId == id
    case Spoken => e.Consumed? && e.message.corrId == id && e.message.body != ""
    case Filled => e.Consumed? && e.message.corrId == id && e.outcome == Stored
    case Kept => e.Consumed? && e.message.corrId == id && e.outcome == Stored && e.message.body != ""
    case Refused => e.Consumed? && e.message.corrId == id && e.outcome == Dropped
    case Handed => e.Consumed? && e.message.corrId == id && e.outcome == Dispatched
    case Replied => e.Answered? && e.id == id && e.body != ""
    case Expiry => e.TimedOut? && e.id == id
  }

  function Count(log: seq<Event>, kind: Kind, id: string): (n: nat)
    ensures n <= |log|
  {
    if log == [] then 0
    else Count(log[..|log| - 1], kind, id) + if Is(log[|log| - 1], kind, id) then 1 else 0
  }

  lemma CountAppend(log: seq<Event>, e: Event, id: string)
    ensures forall kind :: Count(log + [e], kind, id) == Count(log, kind, id) + if Is(e, kind, id) then 1 else 0
  {
    assert (log + [e])[..|log|] == log;
  }

  /** Every message is stored, dropped or handed on. */
  lemma {:induction false} KeptWasReceived(log: seq<Event>, id: string)
    ensures Count(log, Received, id) == Count(log, Filled, id) + Count(log, Refused, id) + Count(log, Handed, id)
    ensures Count(log, Kept, id) <= Count(log, Filled, id) && Count(log, Kept, id) <= Count(log, Spoken, id)
  {
    if log != [] {
      KeptWasReceived(log[..|log| - 1], id);
    }
  }

  // What every run keeps

  /** An id is outstanding from its publication to its answer. */
  predicate Outstanding(log: seq<Event>, id: string) {
    log != [] &&
    match log[|log| - 1]
    case Published(m, _) => m.corrId == id || Outstanding(log[..|log| - 1], id)
    case Answered(_, i, _) => i != id && Outstanding(log[..|log| - 1], id)
    case _ => Outstanding(log[..|log| - 1], id)
  }

  /** An id is marked from its expiry to the message that is dropped for it. */
  predicate Marked(log: seq<Event>, id: string) {
    log != [] &&
    match log[|log| - 1]
    case TimedOut(_, i) => i == id || Marked(log[..|log| - 1], id)
    case Consumed(m, outcome) => !(m.corrId == id && outcome == Dropped) && Marked(log[..|log| - 1], id)
    case _ => Marked(log[..|log| - 1], id)
  }

  /** The outcome that the log before a message calls for. */
  function Expected(log: seq<Event>, id: string): Outcome {
    if !Outstanding(log, id) then Dispatched else if Marked(log, id) then Dropped else Stored
  }

  /** The body of the message that was stored last since the id became
      outstanding, or "" without one. */
  function Latest(log: seq<Event>, id: string): string {
    if log == [] then ""
    else
      var before := log[..|log| - 1];
      match log[|log| - 1]
      case Published(m, _) => if m.corrId == id && !Outstanding(before, id) then "" else Latest(before, id)
      case Consumed(m, outcome) => if m.corrId == id && outcome == Stored then m.body else Latest(before, id)
      case Answered(_, i, _) => if i == id then "" else Latest(before, id)
      case _ => Latest(before, id)
  }

  predicate Justified(log: seq<Event>, e: Event) {
    match e
    case Answered(_, id, body) => Outstanding(log, id) && body == Latest(log, id)
    case Consumed(m, outcome) => outcome == Expected(log, m.corrId)
    case _ => true
  }

  predicate AllJustified(log: seq<Event>) {
    forall k | 0 <= k < |log| :: Justified(log[..k], log[k])
  }

  function Waiting(t: Tables, id: string): nat {
    if IsReady(t, id) then 1 else 0
  }

  /** The tables are what the log says. */
  ghost predicate Entry(t: Tables, log: seq<Event>, id: string) {
    && (id in t.ready <==> Outstanding(log, id))
    && (id in t.refused <==> Marked(log, id))
    && (id in t.ready ==> t.ready[id] == Latest(log, id))
  }

  /** How many messages took the place of an answer not yet fetched. */
  function Overwritten(log: seq<Event>, id: string): nat {
    if log == [] then 0
    else
      var before := log[..|log| - 1];
      Overwritten(before, id) + if Is(log[|log| - 1], Filled, id) && Latest(before, id) != "" then 1 else 0
  }

  /** How many expiries found the id marked already. */
  function Repeated(log: seq<Event>, id: string): nat {
    if log == [] then 0
    else
      var before := log[..|log| - 1];
      Repeated(before, id) + if Is(log[|log| - 1], Expiry, id) && Marked(before, id) then 1 else 0
  }

  /** What becomes of the bodies stored and of the marks set. */
  ghost predicate Balance(t: Tables, log: seq<Event>, id: string) {
    && Count(log, Kept, id) == Count(log, Replied, id) + Waiting(t, id) + Overwritten(log, id)
    && Count(log, Expiry, id) == Count(log, Refused, id) + (if id in t.refused then 1 else 0) + Repeated(log, id)
  }

  function ObserversIn(log: seq<Event>): seq<Observer> {
    if log == [] then []
    else
      var last := log[|log| - 1];
      ObserversIn(log[..|log| - 1]) + if last.Registered? then [last.observer] else []
  }

  /** Every message handed on goes to the observers registered before it, in order. */
  function CallsIn(log: seq<Event>): seq<Call> {
    if log == [] then []
    else
      var before, last := log[..|log| - 1], log[|log| - 1];
      CallsIn(before)
      + if last.Consumed? && last.outcome == Dispatched then CallsFor(ObserversIn(before), Incoming(last.message)) else []
  }

  ghost predicate Good(t: Tables, log: seq<Event>) {
    (forall id :: Entry(t, log, id) && Balance(t, log, id)) && AllJustified(log)
  }

  ghost predicate Inv(s: State) {
    Good(s.tables, s.log) && s.observers == ObserversIn(s.log) && s.calls == CallsIn(s.log)
  }

  /** The tables change in one place, by what one event says. */
  function After(t: Tables, e: Event): Tables {
    match e
    case Registered(_) => t
    case Asked(_, _) => t
    case Published(m, _) => Insert(t, m.corrId)
    case Consumed(m, _) => Deliver(t, m)
    case TimedOut(_, id) => t.(refused := t.refused + {id})
    case Answered(_, id, _) => Erase(t, id)
  }

  /** An event that the code can log in a given state of the tables. */
  predicate Fits(t: Tables, e: Event) {
    match e
    case Consumed(m, outcome) => outcome == OutcomeOf(t, m.corrId)
    case Answered(_, id, body) => id in t.ready && body == t.ready[id]
    case _ => true
  }

  lemma LastOf(log: seq<Event>, e: Event)
    ensures |log + [e]| == |log| + 1 && (log + [e])[|log|] == e && (log + [e])[..|log|] == log
  {
  }

  lemma EntryNext(t: Tables, log: seq<Event>, e: Event, id: string)
    requires Entry(t, log, id) && Fits(t, e)
    ensures Entry(After(t, e), log + [e], id)
  {
    LastOf(log, e);
  }

  lemma BalanceNext(t: Tables, log: seq<Event>, e: Event, id: string)
    requires Entry(t, log, id) && Balance(t, log, id) && Fits(t, e)
    ensures Balance(After(t, e), log + [e], id)
  {
    hide Count, Outstanding, Marked, Latest;
    CountAppend(log, e, id);
    LastOf(log, e);
  }

  lemma JustifiedNow(t: Tables, log: seq<Event>, e: Event)
    requires Fits(t, e) && forall id :: Entry(t, log, id)
    ensures Justified(log, e)
  {
    hide Outstanding, Marked, Latest;
    match e
    case Consumed(m, _) => assert Entry(t, log, m.corrId);
    case Answered(_, id, _) => assert Entry(t, log, id);
    case _ =>
  }

  lemma JustifiedNext(t: Tables, log: seq<Event>, e: Event)
    requires AllJustified(log) && Fits(t, e) && forall id :: Entry(t, log, id)
    ensures AllJustified(log + [e])
  {
    hide Justified;
    JustifiedNow(t, log, e);
    LastOf(log, e);
    forall k | 0 <= k < |log| ensures Justified((log + [e])[..k], (log + [e])[k]) {
      assert (log + [e])[..k] == log[..k];
    }
  }

  lemma GoodNext(t: Tables, log: seq<Event>, e: Event)
    requires Good(t, log) && Fits(t, e)
    ensures Good(After(t, e), log + [e])
  {
    hide Entry, Balance, AllJustified, After, Fits;
    JustifiedNext(t, log, e);
    forall id ensures Entry(After(t, e), log + [e], id) && Balance(After(t, e), log + [e], id) {
      EntryNext(t, log, e, id);
      BalanceNext(t, log, e, id);
    }
  }

  lemma CallsNext(log: seq<Event>, e: Event)
    ensures ObserversIn(log + [e]) == ObserversIn(log) + if e.Registered? then [e.observer] else []
    ensures CallsIn(log + [e]) == CallsIn(log)
            + if e.Consumed? && e.outcome == Dispatched then CallsFor(ObserversIn(log), Incoming(e.message)) else []
  {
    LastOf(log, e);
  }

  /** The step that one event stands for, less what it does to the requests. */
  function Logged(s: State, e: Event): State {
    State(After(s.tables, e),
          if e.Registered? then s.observers + [e.observer] else s.observers,
          s.requests,
          s.log + [e],
          if e.Consumed? && e.outcome == Dispatched then s.calls + CallsFor(s.observers, Incoming(e.message)) else s.calls)
  }

  lemma Advance(s: State, e: Event)
    requires Inv(s) && Fits(s.tables, e)
    ensures Inv(Logged(s, e))
  {
    hide Good, After;
    GoodNext(s.tables, s.log, e);
    CallsNext(s.log, e);
  }

  function LoggedAll(s: State, events: seq<Event>): State {
    if events == [] then s else Logged(LoggedAll(s, events[..|events| - 1]), events[|events| - 1])
  }

  lemma LoggedTwice(s: State, events: seq<Event>)
    ensures events == [] ==> LoggedAll(s, events) == s
    ensures |events| == 1 ==> LoggedAll(s, events) == Logged(s, events[0])
    ensures |events| == 2 ==> LoggedAll(s, events) == Logged(Logged(s, events[0]), events[1])
  {
    if |events| == 2 {
      assert events[..1] == [events[0]] && [events[0]][..0] == [];
    } else if |events| == 1 {
      assert events[..0] == [];
    }
  }

  lemma NextIsLogged(s: State, step: Step, limit: int)
    requires Enabled(s, step)
    ensures Next(s, step, limit) == LoggedAll(s, Events(s, step, limit)).(requests := Next(s, step, limit).requests)
  {
    hide Outgoing, CallsFor, Sendable, LoggedAll, Mentioned;
    var events := Events(s, step, limit);
    LoggedTwice(s, events);
    assert |events| == 2 ==> s.log + [events[0]] + [events[1]] == s.log + events;
    assert s.log + [] == s.log;
  }

  lemma InvNext(s: State, step: Step, limit: int)
    requires Inv(s) && Enabled(s, step)
    ensures Inv(Next(s, step, limit))
  {
    hide Good, Logged, LoggedAll, Next, Outgoing, CallsFor, CallsIn, ObserversIn, Sendable, Mentioned, Entry;
    NextIsLogged(s, step, limit);
    var events := Events(s, step, limit);
    LoggedTwice(s, events);
    if |events| == 2 {
      Advance(s, events[0]);
      Advance(Logged(s, events[0]), events[1]);
    } else if |events| == 1 {
      Advance(s, events[0]);
    }
  }

  lemma InvStart()
    ensures Inv(START)
  {
  }

  lemma {:induction false} InvRun(s: State, steps: seq<Step>, limit: int)
    requires Inv(s) && CanRun(s, steps, limit)
    ensures Inv(Run(s, steps, limit))
    decreases steps
  {
    hide Inv, Next, Enabled;
    if steps != [] {
      InvNext(s, steps[0], limit);
      InvRun(Next(s, steps[0], limit), steps[1..], limit);
    }
  }

  // Correlation safety and conservation

  lemma {:induction false} CountAt(log: seq<Event>, kind: Kind, id: string, i: nat)
    requires i < |log| && Is(log[i], kind, id)
    ensures Count(log, kind, id) >= 1
  {
    if i < |log| - 1 {
      CountAt(log[..|log| - 1], kind, id, i);
    }
  }

  lemma {:induction false} CountTwice(log: seq<Event>, kind: Kind, id: string, i: nat, j: nat)
    requires i < j < |log| && Is(log[i], kind, id) && Is(log[j], kind, id)
    ensures Count(log, kind, id) >= 2
  {
    if j < |log| - 1 {
      CountTwice(log[..|log| - 1], kind, id, i, j);
    } else {
      CountAt(log[..|log| - 1], kind, id, i);
    }
  }

  /** The message at `i` was stored for the id, and nothing since then stored
      another one or fetched it. */
  predicate Standing(log: seq<Event>, i: nat, id: string) {
    && i < |log| && Is(log[i], Filled, id)
    && forall j | i < j < |log| :: !Is(log[j], Filled, id) && !(log[j].Answered? && log[j].id == id)
  }

  lemma {:induction false} LatestStands(log: seq<Event>, id: string) returns (i: nat)
    requires Latest(log, id) != ""
    ensures Standing(log, i, id) && log[i].message.body == Latest(log, id)
  {
    var n := |log| - 1;
    if Is(log[n], Filled, id) {
      i := n;
    } else {
      i := LatestStands(log[..n], id);
      assert log[..n][i] == log[i];
      forall j | i < j < |log| ensures !Is(log[j], Filled, id) && !(log[j].Answered? && log[j].id == id) {
        assert j < n ==> log[..n][j] == log[j];
      }
    }
  }

  /** In any run, with any number of messages, an answer is the body of the last
      message with the request's own id that was stored since the id was
      published or last answered, or empty without one. */
  lemma AnswerWasStored(steps: seq<Step>, limit: int, k: nat)
    requires CanRun(START, steps, limit)
    requires var log := Run(START, steps, limit).log; k < |log| && log[k].Answered?
    ensures var log := Run(START, steps, limit).log;
            && Outstanding(log[..k], log[k].id) && log[k].body == Latest(log[..k], log[k].id)
            && (log[k].body != ""
                ==> exists i: nat :: Standing(log[..k], i, log[k].id) && log[..k][i].message.body == log[k].body)
  {
    hide Run, CanRun, Standing;
    InvStart();
    InvRun(START, steps, limit);
    var log := Run(START, steps, limit).log;
    assert Justified(log[..k], log[k]);
    if log[k].body != "" {
      var i := LatestStands(log[..k], log[k].id);
    }
  }

  lemma BalanceOf(s: State, id: string)
    requires Inv(s)
    ensures Entry(s.tables, s.log, id) && Balance(s.tables, s.log, id)
  {
    assert Entry(s.tables, s.log, id);
  }

  /** With at most one reply that is not empty for an id, the answer is that
      reply and the id is answered once. */
  lemma AnswerIsTheReply(steps: seq<Step>, limit: int, k: nat, j: nat)
    requires CanRun(START, steps, limit)
    requires var log := Run(START, steps, limit).log;
             k < |log| && log[k].Answered? && log[k].body != "" && Count(log, Spoken, log[k].id) <= 1
             && j < |log|
    ensures var log := Run(START, steps, limit).log;
            && (Is(log[j], Spoken, log[k].id) ==> j < k && log[j].message.body == log[k].body && log[j].outcome == Stored)
            && (Is(log[j], Replied, log[k].id) ==> j == k)
  {
    hide Run, CanRun, Inv, Latest, Outstanding;
    InvStart();
    InvRun(START, steps, limit);
    var s := Run(START, steps, limit);
    var log, id := s.log, s.log[k].id;
    AnswerWasStored(steps, limit, k);
    var i: nat :| Standing(log[..k], i, id) && log[..k][i].message.body == log[k].body;
    assert Is(log[i], Spoken, id);
    if Is(log[j], Spoken, id) && j != i {
      CountTwice(log, Spoken, id, if i < j then i else j, if i < j then j else i);
    }
    if Is(log[j], Replied, id) && j != k {
      CountTwice(log, Replied, id, if k < j then k else j, if k < j then j else k);
      KeptWasReceived(log, id);
      BalanceOf(s, id);
    }
  }

  /** How many calls a log calls for: one for each message handed on and each
      observer registered before it. */
  function CallsMade(log: seq<Event>): nat {
    if log == [] then 0
    else
      var before, last := log[..|log| - 1], log[|log| - 1];
      CallsMade(before) + if last.Consumed? && last.outcome == Dispatched then |ObserversIn(before)| else 0
  }

  lemma {:induction false} CallsNumber(log: seq<Event>)
    ensures |CallsIn(log)| == CallsMade(log)
  {
    if log != [] {
      CallsNumber(log[..|log| - 1]);
    }
  }

  lemma {:induction false} CallsAt(log: seq<Event>, k: nat, j: nat)
    requires k < |log| && log[k].Consumed? && log[k].outcome == Dispatched && j < |ObserversIn(log[..k])|
    ensures CallsMade(log[..k]) + j < |CallsIn(log)|
    ensures var c, m := CallsIn(log)[CallsMade(log[..k]) + j], log[k].message;
            && c.observer == ObserversIn(log[..k])[j]
            && c.request.incoming == m.body && c.request.corrId == m.corrId && c.request.replyTo == m.replyTo
            && c.request.route.None? && c.request.requestTime == 0 && !c.request.timeouted
  {
    hide ObserversIn;
    var n := |log| - 1;
    var before := log[..n];
    CallsNumber(before);
    if k < n {
      assert before[..k] == log[..k] && before[k] == log[k];
      CallsAt(before, k, j);
      var at := CallsMade(log[..k]) + j;
      assert CallsIn(log)[at] == CallsIn(before)[at];
    }
  }

  /** Over every run, each message handed on gives one call to each observer
      registered before it, in order of arrival and of registration, with its body,
      id and reply-to, and there are no other calls. */
  lemma ObserversHear(steps: seq<Step>, limit: int, k: nat, j: nat)
    requires CanRun(START, steps, limit)
    ensures |Run(START, steps, limit).calls| == CallsMade(Run(START, steps, limit).log)
    ensures var s := Run(START, steps, limit);
            k < |s.log| && s.log[k].Consumed? && s.log[k].outcome == Dispatched && j < |ObserversIn(s.log[..k])| ==>
              && CallsMade(s.log[..k]) + j < |s.calls|
              && var c, m := s.calls[CallsMade(s.log[..k]) + j], s.log[k].message;
                 && c.observer == ObserversIn(s.log[..k])[j]
                 && c.request.incoming == m.body && c.request.corrId == m.corrId && c.request.replyTo == m.replyTo
                 && c.request.route.None? && c.request.requestTime == 0 && !c.request.timeouted
  {
    hide Run, CanRun, CallsIn, ObserversIn, CallsMade, Good;
    InvStart();
    InvRun(START, steps, limit);
    var log := Run(START, steps, limit).log;
    CallsNumber(log);
    if k < |log| && log[k].Consumed? && log[k].outcome == Dispatched && j < |ObserversIn(log[..k])| {
      CallsAt(log, k, j);
    }
  }

  /** What happens to each message is what the log before it calls for, and every
      message handed on reaches every observer once, in order. The table holds
      the outstanding ids, each with the body stored last. Per id, the messages
      are those stored, dropped and handed on; the bodies stored are those
      answered, waiting and overwritten; the expiries are those used up by a
      dropped message, still marked, and repeated. */
  lemma Conservation(steps: seq<Step>, limit: int, id: string)
    requires CanRun(START, steps, limit)
    ensures var s := Run(START, steps, limit);
            && (forall k | 0 <= k < |s.log| && s.log[k].Consumed? ::
                  s.log[k].outcome == Expected(s.log[..k], s.log[k].message.corrId))
            && s.calls == CallsIn(s.log) && s.observers == ObserversIn(s.log)
            && (id in s.tables.ready <==> Outstanding(s.log, id))
            && (id in s.tables.ready ==> s.tables.ready[id] == Latest(s.log, id))
            && (id in s.tables.refused <==> Marked(s.log, id))
            && Count(s.log, Received, id)
               == Count(s.log, Filled, id) + Count(s.log, Refused, id) + Count(s.log, Handed, id)
            && Count(s.log, Kept, id) == Count(s.log, Replied, id) + Waiting(s.tables, id) + Overwritten(s.log, id)
            && Count(s.log, Expiry, id)
               == Count(s.log, Refused, id) + (if id in s.tables.refused then 1 else 0) + Repeated(s.log, id)
  {
    hide Run, CanRun, Count, CallsIn, ObserversIn, Expected, Outstanding, Marked, Latest, Overwritten, Repeated;
    InvStart();
    InvRun(START, steps, limit);
    var s := Run(START, steps, limit);
    BalanceOf(s, id);
    KeptWasReceived(s.log, id);
    forall k | 0 <= k < |s.log| && s.log[k].Consumed?
      ensures s.log[k].outcome == Expected(s.log[..k], s.log[k].message.corrId)
    {
      assert Justified(s.log[..k], s.log[k]);
    }
  }

  /** Nothing is overwritten for an id that gets one message at most. */
  lemma {:induction false} OverwritingTakesTwo(log: seq<Event>, id: string)
    ensures Latest(log, id) != "" ==> Count(log, Received, id) > 0
    ensures Overwritten(log, id) > 0 ==> Count(log, Received, id) > 1
  {
    if log != [] {
      OverwritingTakesTwo(log[..|log| - 1], id);
    }
  }

  lemma {:induction false} OverwrittenQuiet(log: seq<Event>, events: seq<Event>, id: string)
    requires forall i | 0 <= i < |events| :: !Is(events[i], Filled, id)
    ensures Overwritten(log + events, id) == Overwritten(log, id)
  {
    if events == [] {
      assert log + events == log;
    } else {
      OverwrittenQuiet(log, events[..|events| - 1], id);
      assert (log + events)[..|log + events| - 1] == log + events[..|events| - 1];
    }
  }

  /** A message for an id whose answer waits and that is not refused. */
  predicate Overwrites(s: State, step: Step, id: string) {
    step.Consume? && step.m.corrId == id && IsReady(s.tables, id) && id !in s.tables.refused
  }

  lemma NextLog(s: State, step: Step, limit: int)
    requires Enabled(s, step)
    ensures Next(s, step, limit).log == s.log + Events(s, step, limit)
  {
    hide Outgoing, Sendable, Mentioned;
    assert s.log + [] == s.log;
  }

  /** An answer is overwritten by the steps of this form, and by no other. */
  lemma OverwrittenNext(s: State, step: Step, limit: int, id: string)
    requires Inv(s) && Enabled(s, step)
    ensures Overwritten(Next(s, step, limit).log, id)
         == Overwritten(s.log, id) + if Overwrites(s, step, id) then 1 else 0
  {
    hide Next, Latest, Outstanding, Marked, Outgoing, Sendable, Mentioned, Inv;
    BalanceOf(s, id);
    var events := Events(s, step, limit);
    NextLog(s, step, limit);
    if step.Consume? {
      LastOf(s.log, events[0]);
    } else {
      OverwrittenQuiet(s.log, events, id);
    }
  }

  /** How many steps overwrite an answer when a run goes on from `s`. */
  function OverwritesIn(s: State, steps: seq<Step>, limit: int, id: string): nat
    requires CanRun(s, steps, limit)
    decreases steps
  {
    if steps == [] then 0
    else
      (if Overwrites(s, steps[0], id) then 1 else 0) + OverwritesIn(Next(s, steps[0], limit), steps[1..], limit, id)
  }

  lemma {:induction false} OverwrittenRun(s: State, steps: seq<Step>, limit: int, id: string)
    requires Inv(s) && CanRun(s, steps, limit)
    ensures Overwritten(Run(s, steps, limit).log, id) == Overwritten(s.log, id) + OverwritesIn(s, steps, limit, id)
    decreases steps
  {
    hide Inv, Next, Enabled, Overwritten, Overwrites;
    if steps != [] {
      InvNext(s, steps[0], limit);
      OverwrittenNext(s, steps[0], limit, id);
      OverwrittenRun(Next(s, steps[0], limit), steps[1..], limit, id);
    }
  }

  /** A run through given states. */
  lemma {:induction false} RunThrough(states: seq<State>, steps: seq<Step>, limit: int)
    requires |states| == |steps| + 1
    requires forall k | 0 <= k < |steps| :: Enabled(states[k], steps[k]) && states[k + 1] == Next(states[k], steps[k], limit)
    ensures CanRun(states[0], steps, limit) && Run(states[0], steps, limit) == states[|steps|]
    decreases steps
  {
    hide Next, Enabled;
    if steps != [] {
      forall k | 0 <= k < |steps| - 1
        ensures Enabled(states[1..][k], steps[1..][k]) && states[1..][k + 1] == Next(states[1..][k], steps[1..][k], limit)
      {
        assert Enabled(states[k + 1], steps[k + 1]) && states[k + 2] == Next(states[k + 1], steps[k + 1], limit);
      }
      RunThrough(states[1..], steps[1..], limit);
    }
  }

  /** The state after one client has asked one question. */
  function AfterAsking(route: Route, msg: string, now: int, id: string): State {
    State(Tables(map[id := ""], {}), [], [Request(Some(route), id, "", "", now, false)],
          [Asked(0, id), Published(Message(id, ReplyTo(route), msg, route.targetEp, route.targetRk), false)], [])
  }

  lemma AskingRun(route: Route, msg: string, now: int, id: string, limit: int)
    requires msg != "" && id != "" && route.targetEp != "" && route.targetRk != ""
    ensures var steps := [NewRequest(route), Send(0, msg, now, id, true)];
            CanRun(START, steps, limit) && Run(START, steps, limit) == AfterAsking(route, msg, now, id)
  {
    var steps := [NewRequest(route), Send(0, msg, now, id, true)];
    var s := START.(requests := [Request(Some(route), "", "", "", 0, false)]);
    assert Enabled(s, steps[1]);
    RunThrough([START, s, AfterAsking(route, msg, now, id)], steps, limit);
  }

  /** Two replies to one question overwrite its answer: after them the first one
      has gone to nobody. */
  lemma OverwritingRun(route: Route, msg: string, now: int, id: string, first: Message, second: Message, limit: int)
    requires msg != "" && id != "" && route.targetEp != "" && route.targetRk != ""
    requires first.corrId == second.corrId == id && first.body != ""
    ensures var s, steps := AfterAsking(route, msg, now, id), [Consume(first), Consume(second)];
            && CanRun(s, steps, limit)
            && var e := Run(s, steps, limit);
               e.tables.ready == map[id := second.body] && OverwritesIn(s, steps, limit, id) == 1 && e.calls == []
  {
    var s := AfterAsking(route, msg, now, id);
    var t := Next(s, Consume(first), limit);
    var u := Next(t, Consume(second), limit);
    RunThrough([s, t, u], [Consume(first), Consume(second)], limit);
    assert [Consume(first), Consume(second)][1..] == [Consume(second)];
    assert OverwritesIn(t, [Consume(second)], limit, id) == 1;
  }

  /** A step changes the entries of the ids that it logs and of no other. */
  lemma OthersUntouched(s: State, step: Step, limit: int, id: string)
    requires Enabled(s, step)
    requires forall i | 0 <= i < |Events(s, step, limit)| :: !Mentions(Events(s, step, limit)[i], id)
    ensures var t := Next(s, step, limit).tables;
            && (id in t.ready <==> id in s.tables.ready)
            && (id in t.ready ==> t.ready[id] == s.tables.ready[id])
            && (id in t.refused <==> id in s.tables.refused)
  {
    hide Outgoing, Sendable;
    var events := Events(s, step, limit);
    if |events| > 0 {
      assert !Mentions(events[|events| - 1], id);
    }
  }

  // Refusal safety

  /** Ids in use have been logged, and only a message handed on can put the id
      of one request into another. */
  ghost predicate Owned(s: State) {
    && (forall i | 0 <= i < |s.requests| :: s.requests[i].corrId != "" ==> Mentioned(s.log, s.requests[i].corrId))
    && (forall i, j | 0 <= i < j < |s.requests| ::
          s.requests[i].corrId == s.requests[j].corrId != "" ==> Count(s.log, Handed, s.requests[i].corrId) > 0)
  }

  lemma MentionedStays(a: seq<Event>, b: seq<Event>, id: string)
    requires Mentioned(a, id) || Mentioned(b, id)
    ensures Mentioned(a + b, id)
  {
    if Mentioned(a, id) {
      var i :| 0 <= i < |a| && Mentions(a[i], id);
      assert (a + b)[i] == a[i];
    } else {
      var i :| 0 <= i < |b| && Mentions(b[i], id);
      assert (a + b)[|a| + i] == b[i];
    }
  }

  lemma {:induction false} CountGrows(a: seq<Event>, b: seq<Event>, kind: Kind, id: string)
    ensures Count(a, kind, id) <= Count(a + b, kind, id)
  {
    if b == [] {
      assert a + b == a;
    } else {
      CountGrows(a, b[..|b| - 1], kind, id);
      assert (a + b)[..|a + b| - 1] == a + b[..|b| - 1];
    }
  }

  /** Where the id of a request comes from. */
  lemma IdOrigin(s: State, step: Step, limit: int, i: nat)
    requires Enabled(s, step) && i < |Next(s, step, limit).requests|
    ensures var id := Next(s, step, limit).requests[i].corrId;
            || id == ""
            || (i < |s.requests| && id == s.requests[i].corrId)
            || (i < |s.requests| && step.Send? && i == step.r && id == step.newId && !Mentioned(s.log, id)
                && Events(s, step, limit) != [] && Events(s, step, limit)[0] == Asked(i, id))
            || (i == |s.requests| && step.Consume? && Events(s, step, limit) == [Consumed(step.m, Dispatched)]
                && id == step.m.corrId)
  {
    hide Outgoing, Sendable, Mentioned;
  }

  lemma MentionedHere(events: seq<Event>, id: string)
    requires events != [] && Mentions(events[0], id)
    ensures Mentioned(events, id)
  {
  }

  lemma OwnedNext(s: State, step: Step, limit: int)
    requires Owned(s) && Enabled(s, step)
    ensures Owned(Next(s, step, limit))
  {
    hide Next, Enabled, Mentioned, Count;
    var t, events := Next(s, step, limit), Events(s, step, limit);
    NextLog(s, step, limit);
    forall i | 0 <= i < |t.requests| && t.requests[i].corrId != "" ensures Mentioned(t.log, t.requests[i].corrId) {
      IdOrigin(s, step, limit, i);
      if !(i < |s.requests| && t.requests[i].corrId == s.requests[i].corrId) {
        MentionedHere(events, t.requests[i].corrId);
      }
      MentionedStays(s.log, events, t.requests[i].corrId);
    }
    forall i, j | 0 <= i < j < |t.requests| && t.requests[i].corrId == t.requests[j].corrId != ""
      ensures Count(t.log, Handed, t.requests[i].corrId) > 0
    {
      var id := t.requests[i].corrId;
      IdOrigin(s, step, limit, i);
      IdOrigin(s, step, limit, j);
      CountGrows(s.log, events, Handed, id);
      if j == |s.requests| {
        CountAppend(s.log, events[0], id);
      }
    }
  }

  lemma {:induction false} OwnedRun(s: State, steps: seq<Step>, limit: int)
    requires Owned(s) && CanRun(s, steps, limit)
    ensures Owned(Run(s, steps, limit))
    decreases steps
  {
    hide Owned, Next, Enabled;
    if steps != [] {
      OwnedNext(s, steps[0], limit);
      OwnedRun(Next(s, steps[0], limit), steps[1..], limit);
    }
  }

  /** The body that a step brings for an id, if any. */
  function BodyOf(step: Step, id: string): seq<string> {
    if step.Consume? && step.m.corrId == id then [step.m.body] else []
  }

  /** The bodies that steps bring for an id, in order. */
  function Bodies(steps: seq<Step>, id: string): seq<string> {
    if steps == [] then [] else BodyOf(steps[0], id) + Bodies(steps[1..], id)
  }

  /** What such bodies leave in the table after an expiry: the first one is
      refused, each later one takes the place of the one before. */
  function Left(bodies: seq<string>): string {
    if |bodies| <= 1 then "" else bodies[|bodies| - 1]
  }

  /** The request with this id has expired and messages with these bodies have
      come for it since; the first one used up the refusal mark. */
  ghost predicate Late(s: State, id: string, bodies: seq<string>) {
    && id != "" && Mentioned(s.log, id)
    && (forall i | 0 <= i < |s.requests| :: s.requests[i].corrId != id)
    && id in s.tables.ready && s.tables.ready[id] == Left(bodies)
    && Count(s.log, Received, id) == |bodies| && Count(s.log, Handed, id) == 0
    && Count(s.log, Refused, id) == (if bodies == [] then 0 else 1)
    && (id in s.tables.refused <==> bodies == [])
  }

  lemma {:induction false} Uncounted(log: seq<Event>, events: seq<Event>, kind: Kind, id: string)
    requires forall i | 0 <= i < |events| :: !Is(events[i], kind, id)
    ensures Count(log + events, kind, id) == Count(log, kind, id)
  {
    if events == [] {
      assert log + events == log;
    } else {
      Uncounted(log, events[..|events| - 1], kind, id);
      assert (log + events)[..|log + events| - 1] == log + events[..|events| - 1];
    }
  }

  lemma LateTables(s: State, step: Step, limit: int, id: string, bodies: seq<string>)
    requires Late(s, id, bodies) && Enabled(s, step)
    ensures var t, now := Next(s, step, limit), bodies + BodyOf(step, id);
            && id in t.tables.ready && t.tables.ready[id] == Left(now)
            && (id in t.tables.refused <==> now == [])
  {
    hide Mentioned, Count;
  }

  lemma LateCounts(s: State, step: Step, limit: int, id: string, bodies: seq<string>)
    requires Late(s, id, bodies) && Enabled(s, step)
    ensures var t, now := Next(s, step, limit), bodies + BodyOf(step, id);
            && Count(t.log, Received, id) == |now| && Count(t.log, Handed, id) == 0
            && Count(t.log, Refused, id) == if now == [] then 0 else 1
  {
    hide Mentioned, Count, Next;
    var events := Events(s, step, limit);
    NextLog(s, step, limit);
    match step
    case Consume(m) =>
      CountAppend(s.log, events[0], id);
    case _ =>
      Uncounted(s.log, events, Received, id);
      Uncounted(s.log, events, Handed, id);
      Uncounted(s.log, events, Refused, id);
  }

  lemma LateNext(s: State, step: Step, limit: int, id: string, bodies: seq<string>)
    requires Late(s, id, bodies) && Enabled(s, step)
    ensures Late(Next(s, step, limit), id, bodies + BodyOf(step, id))
  {
    var t := Next(s, step, limit);
    LateTables(s, step, limit, id, bodies);
    LateCounts(s, step, limit, id, bodies);
    hide Next, Enabled, Mentioned, Count, BodyOf;
    NextLog(s, step, limit);
    MentionedStays(s.log, Events(s, step, limit), id);
    forall i | 0 <= i < |t.requests| ensures t.requests[i].corrId != id {
      IdOrigin(s, step, limit, i);
    }
  }

  lemma {:induction false} LateRun(s: State, steps: seq<Step>, limit: int, id: string, bodies: seq<string>)
    requires Late(s, id, bodies) && CanRun(s, steps, limit)
    ensures Late(Run(s, steps, limit), id, bodies + Bodies(steps, id))
    decreases steps
  {
    hide Late, Next, Enabled, BodyOf;
    if steps == [] {
      assert bodies + [] == bodies;
    } else {
      LateNext(s, steps[0], limit, id, bodies);
      LateRun(Next(s, steps[0], limit), steps[1..], limit, id, bodies + BodyOf(steps[0], id));
      Cut(bodies, BodyOf(steps[0], id), Bodies(steps[1..], id));
    }
  }

  /** A published request that expires before a message with its id has come. */
  predicate ExpiresUnanswered(s: State, r: nat, now: int, limit: int) {
    && r < |s.requests| && s.requests[r].corrId != "" && s.requests[r].corrId in s.tables.ready
    && Count(s.log, Received, s.requests[r].corrId) == 0 && Expired(s.requests[r], now, limit)
  }

  lemma LateStart(s: State, r: nat, now: int, limit: int)
    requires Inv(s) && Owned(s) && ExpiresUnanswered(s, r, now, limit)
    ensures Late(Next(s, Check(r, now), limit), s.requests[r].corrId, [])
  {
    hide Mentioned, Inv, Good;
    var id := s.requests[r].corrId;
    var t := Next(s, Check(r, now), limit);
    NextLog(s, Check(r, now), limit);
    CountAppend(s.log, TimedOut(r, id), id);
    KeptWasReceived(s.log, id);
    BalanceOf(s, id);
    MentionedStays(s.log, [TimedOut(r, id)], id);
  }

  lemma OwnedStart()
    ensures Owned(START)
  {
  }

  /** A published request of a run has just expired unanswered. */
  lemma LateAfterRun(steps: seq<Step>, r: nat, now: int, limit: int)
    requires CanRun(START, steps, limit) && ExpiresUnanswered(Run(START, steps, limit), r, now, limit)
    ensures var s := Run(START, steps, limit); Late(Next(s, Check(r, now), limit), s.requests[r].corrId, [])
  {
    hide Run, CanRun, Next, Inv, Owned, Late;
    InvStart();
    InvRun(START, steps, limit);
    OwnedStart();
    OwnedRun(START, steps, limit);
    LateStart(Run(START, steps, limit), r, now, limit);
  }

  /** Refusal safety: over the rest of the run, however many messages with the id
      come, none is handed on, the first one and no other is refused and uses up
      the mark, and the table has the body of the last one after the first. So a
      single late reply is neither stored nor handed on, and its entry is empty. */
  lemma LateReplyIsRefused(steps: seq<Step>, r: nat, now: int, rest: seq<Step>, limit: int)
    requires CanRun(START, steps, limit) && ExpiresUnanswered(Run(START, steps, limit), r, now, limit)
    requires CanRun(Next(Run(START, steps, limit), Check(r, now), limit), rest, limit)
    ensures var s := Run(START, steps, limit);
            var id, e := s.requests[r].corrId, Run(Next(s, Check(r, now), limit), rest, limit);
            var bodies := Bodies(rest, id);
            && id in e.tables.ready && e.tables.ready[id] == Left(bodies)
            && Count(e.log, Received, id) == |bodies| && Count(e.log, Handed, id) == 0
            && Count(e.log, Refused, id) == (if bodies == [] then 0 else 1)
            && (id in e.tables.refused <==> bodies == [])
  {
    hide Run, CanRun, Next, Count, Mentioned;
    var s := Run(START, steps, limit);
    var id := s.requests[r].corrId;
    LateAfterRun(steps, r, now, limit);
    LateRun(Next(s, Check(r, now), limit), rest, limit, id, []);
    assert [] + Bodies(rest, id) == Bodies(rest, id);
  }

  /** The entry of the id is empty now and after every step. */
  predicate StaysEmpty(s: State, steps: seq<Step>, limit: int, id: string)
    requires CanRun(s, steps, limit)
    decreases steps
  {
    && id in s.tables.ready && s.tables.ready[id] == ""
    && (steps == [] || StaysEmpty(Next(s, steps[0], limit), steps[1..], limit, id))
  }

  /** No body but the first is more than empty, `earlier` being how many came before. */
  predicate Silent(earlier: nat, bodies: seq<string>) {
    forall k | 0 <= k < |bodies| && earlier + k >= 1 :: bodies[k] == ""
  }

  lemma {:induction false} LateStays(s: State, steps: seq<Step>, limit: int, id: string, bodies: seq<string>)
    requires Late(s, id, bodies) && CanRun(s, steps, limit)
    ensures StaysEmpty(s, steps, limit, id) <==> Left(bodies) == "" && Silent(|bodies|, Bodies(steps, id))
    decreases steps
  {
    hide Next, Enabled;
    if steps != [] {
      var more := BodyOf(steps[0], id);
      LateNext(s, steps[0], limit, id, bodies);
      LateStays(Next(s, steps[0], limit), steps[1..], limit, id, bodies + more);
      hide Late;
      var later := Bodies(steps[1..], id);
      assert forall k | 0 <= k < |later| :: (more + later)[|more| + k] == later[k];
      assert more != [] ==> (more + later)[0] == more[0];
    }
  }

  /** The entry stays empty over the rest of the run exactly when no message with
      the id after the first one has a body. */
  lemma EntryStaysEmpty(steps: seq<Step>, r: nat, now: int, rest: seq<Step>, limit: int)
    requires CanRun(START, steps, limit) && ExpiresUnanswered(Run(START, steps, limit), r, now, limit)
    requires CanRun(Next(Run(START, steps, limit), Check(r, now), limit), rest, limit)
    ensures var s := Run(START, steps, limit);
            var bodies := Bodies(rest, s.requests[r].corrId);
            StaysEmpty(Next(s, Check(r, now), limit), rest, limit, s.requests[r].corrId)
            <==> forall k | 1 <= k < |bodies| :: bodies[k] == ""
  {
    hide Run, CanRun, Next, Late;
    var s := Run(START, steps, limit);
    LateAfterRun(steps, r, now, limit);
    LateStays(Next(s, Check(r, now), limit), rest, limit, s.requests[r].corrId, []);
  }

  /** A run in which the entry of an expired request does not stay empty. */
  lemma SecondReplyFills(route: Route, msg: string, now: int, id: string, first: Message, second: Message, later: int, limit: int)
    requires msg != "" && id != "" && route.targetEp != "" && route.targetRk != "" && later - now > limit
    requires first.corrId == second.corrId == id && second.body != ""
    ensures var s, steps := AfterAsking(route, msg, now, id), [Consume(first), Consume(second)];
            && ExpiresUnanswered(s, 0, later, limit)
            && CanRun(Next(s, Check(0, later), limit), steps, limit)
            && Run(Next(s, Check(0, later), limit), steps, limit).tables == Tables(map[id := second.body], {})
  {
    var s := AfterAsking(route, msg, now, id);
    var t := Next(s, Check(0, later), limit);
    var u := Next(t, Consume(first), limit);
    RunThrough([t, u, Next(u, Consume(second), limit)], [Consume(first), Consume(second)], limit);
    assert s.log[..1] == [Asked(0, id)] && [Asked(0, id)][..0] == [];
  }
}
