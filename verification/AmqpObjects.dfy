/** The objects of communication/amqp_client_c.cpp. The clock, the generated
    ids, the broker's answer to a publication and the messages that arrive are
    parameters. */
module AmqpObjects {
  import opened Bytes
  import opened AmqpSteps

  /** The transmitting connection: what the broker has accepted. */
  class Connection {
    var sent: seq<Message>

    constructor ()
      ensures sent == []
    {
      sent := [];
    }

    method BasicPublish(m: Message, up: bool) returns (ok: bool)
      modifies this
      ensures ok == up && sent == old(sent) + if up then [m] else []
    {
      if up { sent := sent + [m]; }
      ok := up;
    }
  }

  /** What the observers of one client are called with, in order of time. */
  class Trace {
    var calls: seq<Call>

    constructor ()
      ensures calls == []
    {
      calls := [];
    }
  }

  class NetworkObserver {
    const number: Observer
    const trace: Trace

    constructor (number: Observer, trace: Trace)
      ensures this.number == number && this.trace == trace
    {
      this.number, this.trace := number, trace;
    }

    method CallbackNetworkRequest(request: AmqpRequest)
      modifies trace
      ensures trace.calls == old(trace.calls) + [Call(number, request.Content())]
    {
      trace.calls := trace.calls
      + [Call(number, Request(request.routingTarget, request.correlationId, request.replyTo, request.incomingMessage,
                              request.requestTimeMillisec, request.timeouted))];
    }
  }

  class AmqpClient {
    const connTransmit: Connection
    const trace: Trace
    const deliveredMessageExpirationSec: int
    var observers: seq<NetworkObserver>
    var readyResponsesToAsyncMessages: map<string, string>
    var refusedMessages: set<string>

    ghost function Content(): Tables
      reads this
    {
      Tables(readyResponsesToAsyncMessages, refusedMessages)
    }

    ghost predicate Valid()
      reads this
    {
      forall i | 0 <= i < |observers| :: observers[i].trace == trace
    }

    ghost function Numbers(): seq<Observer>
      reads this
    {
      seq(|observers|, i requires 0 <= i < |observers| reads this => observers[i].number)
    }

    constructor (deliveredMessageExpirationSec: int)
      ensures Valid() && fresh(connTransmit) && fresh(trace) && connTransmit.sent == [] && trace.calls == []
      ensures this.deliveredMessageExpirationSec == deliveredMessageExpirationSec
      ensures Content() == Tables(map[], {}) && observers == []
    {
      this.deliveredMessageExpirationSec := deliveredMessageExpirationSec;
      connTransmit := new Connection();
      trace := new Trace();
      observers, readyResponsesToAsyncMessages, refusedMessages := [], map[], {};
    }

    method AddObserver(observer: NetworkObserver)
      requires Valid() && observer.trace == trace
      modifies this`observers
      ensures Valid() && observers == old(observers) + [observer] && Numbers() == old(Numbers()) + [observer.number]
    {
      observers := observers + [observer];
    }

    method SendPackageAsync(msg: string, corrId: string, exchangeName: string, routingName: string, replyTo: string, up: bool)
      returns (rt: bool)
      requires Sendable(Message(corrId, replyTo, msg, exchangeName, routingName))
      modifies this`readyResponsesToAsyncMessages, connTransmit
      ensures rt == up && Content() == if up then Insert(old(Content()), corrId) else old(Content())
      ensures refusedMessages == old(refusedMessages)
      ensures readyResponsesToAsyncMessages == if !up || corrId in old(readyResponsesToAsyncMessages) then old(readyResponsesToAsyncMessages)
                                               else old(readyResponsesToAsyncMessages)[corrId := ""]
      ensures connTransmit.sent
           == old(connTransmit.sent) + if up then [Message(corrId, replyTo, msg, exchangeName, routingName)] else []
    {
      var publishStatus := connTransmit.BasicPublish(Message(corrId, replyTo, msg, exchangeName, routingName), up);
      if !publishStatus { return false; }
      if corrId !in readyResponsesToAsyncMessages {
        readyResponsesToAsyncMessages := readyResponsesToAsyncMessages[corrId := ""];
      }
      rt := true;
    }

    /** One turn of the receiving side; `envelope` is None when nothing was
        consumed normally. The result is the request that the observers got. */
    method Poll(envelope: Option<Message>) returns (handed: AmqpRequest?)
      requires Valid()
      modifies this`readyResponsesToAsyncMessages, this`refusedMessages, trace
      ensures Valid() && Numbers() == old(Numbers())
      ensures (handed != null <==> envelope.Some? && old(OutcomeOf(Content(), envelope.value.corrId)) == Dispatched)
      ensures Content() == if envelope.Some? then Deliver(old(Content()), envelope.value) else old(Content())
      ensures envelope.None? ==> handed == null && Content() == old(Content())
      ensures envelope.Some? ==>
                var ready, refused := old(readyResponsesToAsyncMessages), old(refusedMessages);
                var id := envelope.value.corrId;
                && (handed != null <==> id !in ready)
                && readyResponsesToAsyncMessages == (if id in ready && id !in refused then ready[id := envelope.value.body] else ready)
                && refusedMessages == (if id in ready then refused - {id} else refused)
      ensures handed == null ==> trace.calls == old(trace.calls)
      ensures handed != null ==>
                var m := envelope.value;
                && handed.incomingMessage == m.body && handed.correlationId == m.corrId && handed.replyTo == m.replyTo
                && handed.routingTarget.None? && !handed.timeouted
                && |trace.calls| == |old(trace.calls)| + |observers| && trace.calls[..|old(trace.calls)|] == old(trace.calls)
                && forall i | 0 <= i < |observers| ::
                     var c := trace.calls[|old(trace.calls)| + i];
                     && c.observer == observers[i].number && c.request.route.None?
                     && c.request.incoming == m.body && c.request.corrId == m.corrId && c.request.replyTo == m.replyTo
      ensures handed != null ==> fresh(handed) && handed.networkClient == this && handed.Content() == Incoming(envelope.value)
                                 && trace.calls == old(trace.calls) + CallsFor(Numbers(), Incoming(envelope.value))
    {
      handed := null;
      if envelope.None? { return; }
      var message := envelope.value;
      var corrId := message.corrId;
      if corrId in readyResponsesToAsyncMessages {
        if corrId !in refusedMessages {
          readyResponsesToAsyncMessages := readyResponsesToAsyncMessages[corrId := message.body];
        } else {
          refusedMessages := refusedMessages - {corrId};
        }
      } else {
        var request := new AmqpRequest(this, None);
        request.incomingMessage := message.body;
        request.correlationId := corrId;
        request.replyTo := message.replyTo;
        for i := 0 to |observers|
          invariant Valid() && request.Content() == Incoming(message) && Content() == old(Content())
          invariant trace.calls == old(trace.calls) + CallsFor(Numbers(), Incoming(message))[..i]
        {
          observers[i].CallbackNetworkRequest(request);
        }
        assert CallsFor(Numbers(), Incoming(message))[..|observers|] == CallsFor(Numbers(), Incoming(message));
        handed := request;
      }
    }

    method CheckResponseReadyness(corrId: string) returns (ready: bool)
      ensures ready == IsReady(Content(), corrId)
      ensures ready <==> corrId in readyResponsesToAsyncMessages && readyResponsesToAsyncMessages[corrId] != ""
    {
      ready := corrId in readyResponsesToAsyncMessages && readyResponsesToAsyncMessages[corrId] != "";
    }

    method GetAsyncResponse(corrId: string) returns (out: string)
      requires corrId in readyResponsesToAsyncMessages
      modifies this`readyResponsesToAsyncMessages
      ensures out == old(readyResponsesToAsyncMessages)[corrId] && Content() == Erase(old(Content()), corrId)
      ensures readyResponsesToAsyncMessages == old(readyResponsesToAsyncMessages) - {corrId}
      ensures refusedMessages == old(refusedMessages)
    {
      out := readyResponsesToAsyncMessages[corrId];
      readyResponsesToAsyncMessages := readyResponsesToAsyncMessages - {corrId};
    }
  }

  class AmqpRequest {
    const networkClient: AmqpClient
    const routingTarget: Option<Route>
    var replyTo: string
    var incomingMessage: string
    var correlationId: string
    var timeouted: bool
    var requestTimeMillisec: int

    ghost function Content(): Request
      reads this
    {
      Request(routingTarget, correlationId, replyTo, incomingMessage, requestTimeMillisec, timeouted)
    }

    constructor (networkClient: AmqpClient, routingTarget: Option<Route>)
      ensures this.networkClient == networkClient && Content() == Request(routingTarget, "", "", "", 0, false)
    {
      this.networkClient, this.routingTarget := networkClient, routingTarget;
      replyTo, incomingMessage, correlationId, timeouted, requestTimeMillisec := "", "", "", false, 0;
    }

    /** `now` and `newId` come from the clock and the id generator. */
    method SendMessageAsync(msg: string, now: int, newId: string, up: bool) returns (id: string)
      requires correlationId == "" ==> routingTarget.Some?
      requires Sendable(Outgoing(Content(), msg, newId))
      modifies this`correlationId, this`requestTimeMillisec
      modifies networkClient`readyResponsesToAsyncMessages, networkClient.connTransmit
      ensures var m := old(Outgoing(Content(), msg, newId));
              && id == correlationId == m.corrId
              && networkClient.Content() == (if up then Insert(old(networkClient.Content()), m.corrId) else old(networkClient.Content()))
              && networkClient.connTransmit.sent == old(networkClient.connTransmit.sent) + if up then [m] else []
      ensures Content() == if old(correlationId) == "" then old(Content()).(corrId := newId, requestTime := now) else old(Content())
      ensures networkClient.refusedMessages == old(networkClient.refusedMessages)
      ensures old(correlationId) == "" ==>
                var route := routingTarget.value;
                && correlationId == newId && requestTimeMillisec == now
                && (up ==> networkClient.connTransmit.sent
                           == old(networkClient.connTransmit.sent)
                              + [Message(newId, route.predatorEp + "%" + route.predatorRk, msg, route.targetEp, route.targetRk)])
      ensures old(correlationId) != "" ==>
                && correlationId == old(correlationId) && requestTimeMillisec == old(requestTimeMillisec)
                && (up && '%' in replyTo ==>
                      exists ep, rk :: replyTo == ep + "%" + rk && '%' !in ep && networkClient.connTransmit.sent
                        == old(networkClient.connTransmit.sent) + [Message(correlationId, "i_am_replier", msg, ep, rk)])
    {
      ghost var m := Outgoing(Content(), msg, newId);
      var rt;
      if correlationId == "" {
        requestTimeMillisec := now;
        correlationId := newId;
        var route := routingTarget.value;
        var address := route.predatorEp + [DELIMITER] + route.predatorRk;
        assert m == Message(newId, address, msg, route.targetEp, route.targetRk);
        rt := networkClient.SendPackageAsync(msg, correlationId, route.targetEp, route.targetRk, address, up);
      } else {
        var pos := Find(replyTo);
        var ep := replyTo[..pos];
        var rk := if pos == |replyTo| then replyTo else replyTo[pos + 1..];
        assert m == Message(correlationId, REPLIER, msg, ep, rk);
        rt := networkClient.SendPackageAsync(msg, correlationId, ep, rk, REPLIER, up);
      }
      id := correlationId;
    }

    method CheckResponseReadyness(now: int) returns (ready: bool)
      modifies this`correlationId, this`timeouted, networkClient`refusedMessages
      ensures var limit, before := networkClient.deliveredMessageExpirationSec * 1000, old(Content());
              if Expired(before, now, limit) then
                && !ready && Content() == before.(corrId := "", timeouted := true)
                && networkClient.Content()
                   == Tables(old(networkClient.Content()).ready, old(networkClient.Content()).refused + {before.corrId})
              else
                && ready == IsReady(networkClient.Content(), before.corrId)
                && Content() == before && networkClient.Content() == old(networkClient.Content())
      ensures now - old(requestTimeMillisec) > networkClient.deliveredMessageExpirationSec * 1000 ==>
                && !ready && timeouted && correlationId == ""
                && networkClient.refusedMessages == old(networkClient.refusedMessages) + {old(correlationId)}
      ensures now - old(requestTimeMillisec) <= networkClient.deliveredMessageExpirationSec * 1000 ==>
                && correlationId == old(correlationId) && timeouted == old(timeouted)
                && networkClient.refusedMessages == old(networkClient.refusedMessages)
                && (ready <==> correlationId in networkClient.readyResponsesToAsyncMessages
                               && networkClient.readyResponsesToAsyncMessages[correlationId] != "")
    {
      if now - requestTimeMillisec > networkClient.deliveredMessageExpirationSec * 1000 {
        timeouted := true;
        networkClient.refusedMessages := networkClient.refusedMessages + {correlationId};
        correlationId := "";
        return false;
      }
      ready := networkClient.CheckResponseReadyness(correlationId);
    }

    method GetAsyncResponse() returns (out: string)
      requires correlationId in networkClient.readyResponsesToAsyncMessages
      modifies this`correlationId, networkClient`readyResponsesToAsyncMessages
      ensures out == old(networkClient.readyResponsesToAsyncMessages[correlationId])
      ensures Content() == old(Content()).(corrId := "") && correlationId == ""
      ensures networkClient.readyResponsesToAsyncMessages == old(networkClient.readyResponsesToAsyncMessages) - {old(correlationId)}
      ensures networkClient.Content() == Erase(old(networkClient.Content()), old(correlationId))
    {
      out := networkClient.GetAsyncResponse(correlationId);
      correlationId := "";
    }
  }

  function PublishedIn(log: seq<Event>): seq<Message> {
    if log == [] then []
    else
      var last := log[|log| - 1];
      PublishedIn(log[..|log| - 1]) + if last.Published? then [last.message] else []
  }

  lemma PublishedAppend(log: seq<Event>, e: Event)
    ensures PublishedIn(log + [e]) == PublishedIn(log) + if e.Published? then [e.message] else []
  {
    LastOf(log, e);
  }

  lemma PublishedNext(s: State, step: Step, limit: int)
    requires Enabled(s, step)
    ensures PublishedIn(Next(s, step, limit).log)
         == PublishedIn(s.log) + if step.Send? && step.ok then [Outgoing(s.requests[step.r], step.msg, step.newId)] else []
  {
    hide Outgoing, Sendable, Mentioned, Next;
    var events := Events(s, step, limit);
    NextLog(s, step, limit);
    if |events| == 2 {
      PublishedAppend(s.log, events[0]);
      PublishedAppend(s.log + [events[0]], events[1]);
      assert s.log + events == s.log + [events[0]] + [events[1]];
    } else if |events| == 1 {
      PublishedAppend(s.log, events[0]);
      assert events == [events[0]];
    } else {
      assert s.log + events == s.log;
    }
  }

  /** A client with the requests that its users hold, driven step by step; the
      ghost state says that every call is a step of the machine. */
  class Session {
    const client: AmqpClient
    var requests: seq<AmqpRequest>
    ghost var state: State

    ghost predicate Valid()
      reads this, client, client.connTransmit, client.trace, requests
    {
      && client.Valid()
      && client.Content() == state.tables && client.Numbers() == state.observers && client.trace.calls == state.calls
      && client.connTransmit.sent == PublishedIn(state.log)
      && |requests| == |state.requests|
      && (forall i | 0 <= i < |requests| :: requests[i].networkClient == client && requests[i].Content() == state.requests[i])
      && (forall i, j | 0 <= i < j < |requests| :: requests[i] != requests[j])
    }

    constructor (deliveredMessageExpirationSec: int)
      ensures Valid() && state == START && fresh(client) && fresh(client.connTransmit) && fresh(client.trace)
      ensures client.deliveredMessageExpirationSec == deliveredMessageExpirationSec
    {
      client := new AmqpClient(deliveredMessageExpirationSec);
      requests := [];
      state := START;
    }

    ghost function Limit(): int
    {
      client.deliveredMessageExpirationSec * 1000
    }

    method DoSend(r: nat, msg: string, now: int, newId: string, ok: bool)
      requires Valid() && Enabled(state, Send(r, msg, now, newId, ok))
      modifies this`state, client, client.connTransmit, requests
      ensures Valid() && state == Next(old(state), Send(r, msg, now, newId, ok), Limit())
    {
      hide Outgoing, Sendable, Mentioned, Insert, PublishedIn, Events;
      var id := requests[r].SendMessageAsync(msg, now, newId, ok);
      PublishedNext(state, Send(r, msg, now, newId, ok), Limit());
      state := Next(state, Send(r, msg, now, newId, ok), Limit());
    }

    method DoConsume(m: Message)
      requires Valid()
      modifies this, client, client.trace
      ensures Valid() && state == Next(old(state), Consume(m), Limit())
      ensures forall i | 0 <= i < |requests| :: fresh(requests[i]) || requests[i] in old(requests)
    {
      hide Outgoing, Sendable, Mentioned, PublishedIn, Events, Deliver, OutcomeOf, CallsFor, Incoming;
      var handed := client.Poll(Some(m));
      if handed != null { requests := requests + [handed]; }
      PublishedNext(state, Consume(m), Limit());
      state := Next(state, Consume(m), Limit());
    }

    method DoCheck(r: nat, now: int) returns (ready: bool)
      requires Valid() && Enabled(state, Check(r, now))
      modifies this`state, client, requests
      ensures Valid() && state == Next(old(state), Check(r, now), Limit())
      ensures ready ==> Enabled(state, Get(r)) && state.tables.ready[state.requests[r].corrId] != ""
    {
      hide Outgoing, Sendable, Mentioned, PublishedIn, Events;
      ready := requests[r].CheckResponseReadyness(now);
      PublishedNext(state, Check(r, now), Limit());
      state := Next(state, Check(r, now), Limit());
    }

    method DoGet(r: nat) returns (body: string)
      requires Valid() && Enabled(state, Get(r))
      modifies this`state, client, requests
      ensures Valid() && state == Next(old(state), Get(r), Limit())
      ensures state.log == old(state.log) + [Answered(r, old(state.requests[r].corrId), body)]
    {
      hide Outgoing, Sendable, Mentioned, PublishedIn, Erase;
      body := requests[r].GetAsyncResponse();
      PublishedNext(state, Get(r), Limit());
      state := Next(state, Get(r), Limit());
    }

    method DoOther(step: Step)
      requires Valid() && (step.AddObserver? || step.NewRequest?)
      modifies this, client
      ensures Valid() && state == Next(old(state), step, Limit())
      ensures forall i | 0 <= i < |requests| :: fresh(requests[i]) || requests[i] in old(requests)
    {
      match step {
        case AddObserver(o) =>
          var observer := new NetworkObserver(o, client.trace);
          client.AddObserver(observer);
        case NewRequest(route) =>
          var request := new AmqpRequest(client, Some(route));
          requests := requests + [request];
      }
      PublishedNext(state, step, Limit());
      state := Next(state, step, Limit());
    }

    /** Any sequence of calls is a run of the machine. */
    method Execute(steps: seq<Step>)
      requires Valid() && CanRun(state, steps, Limit())
      modifies this, client, client.connTransmit, client.trace, requests
      ensures Valid() && state == Run(old(state), steps, Limit())
    {
      hide Next, Valid, Enabled;
      ghost var start := state;
      var todo := steps;
      while todo != []
        invariant Valid() && CanRun(state, todo, Limit()) && Run(start, steps, Limit()) == Run(state, todo, Limit())
        invariant forall i | 0 <= i < |requests| :: fresh(requests[i]) || requests[i] in old(requests)
        decreases todo
      {
        match todo[0] {
          case Send(r, msg, now, newId, ok) => DoSend(r, msg, now, newId, ok);
          case Consume(m) => DoConsume(m);
          case Check(r, now) => var ready := DoCheck(r, now);
          case Get(r) => var body := DoGet(r);
          case _ => DoOther(todo[0]);
        }
        todo := todo[1..];
      }
    }
  }
}
