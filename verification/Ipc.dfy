/**
 * Requests and replies between the threads of a client, its receive loop and the server, as a state
 * machine over their steps (src/Library/IPCClientPrivate.cpp, IPCServerPrivate.cpp).
 */
module Ipc {
  /**
   * A reply carries the identifier of a request; `cause` is what that request asked.  A notice is a
   * signal, or an exception without a request identifier.
   */
  datatype Message = Reply(id: nat, cause: string, isException: bool, result: string) | Notice(text: string)

  datatype Request = Request(id: nat, body: string)

  /** A promise of the return map. */
  datatype Slot = Pending | Holds(message: Message)

  datatype Outcome = Answer(message: Message) | Failure(message: Message) | NoReply

  /** Where a calling thread is in qbIPCSendRecvMessage. */
  datatype Stage = Numbered | Waiting | TimedOut | Got(message: Message) | Returned(outcome: Outcome)

  datatype Call = Call(body: string, stage: Stage)

  /**
   * `answered` and `lost` are history: the slots that have been given a value so far, and the requests
   * whose reply the server could not send.
   */
  datatype State = State(
    next: nat, calls: map<nat, Call>, slots: map<nat, Slot>, toServer: seq<Request>, toClient: seq<Message>,
    connected: bool, answered: set<nat>, lost: set<nat>)

  const INITIAL := State(1, map[], map[], [], [], true, {}, {})

  /**
   * How the server deals with a request: a response, an exception for the client, one of these that it
   * fails to send, which it only logs, or a disconnection.
   */
  datatype Service = Respond(result: string) | Refuse(reason: string) | FailToSend | Drop

  datatype Action =
    | Begin(body: string)              // a thread takes a message identifier
    | Post(id: nat, delivered: bool)   // it makes the slot and sends; the result of sending is not looked at
    | Serve(service: Service)          // the server takes the next request
    | Broadcast(text: string)
    | Receive                          // the receive loop takes the next message
    | Expire(id: nat)                  // waiting for the slot times out
    | Take(id: nat)                    // the thread takes the value out of the slot
    | Finish(id: nat)                  // it removes the slot and returns
    | Disconnect

  predicate AtStage(s: State, id: nat, stage: Stage) {
    id in s.calls && s.calls[id].stage == stage
  }

  function Advance(s: State, id: nat, stage: Stage): (r: State)
    requires id in s.calls
  {
    s.(calls := s.calls[id := s.calls[id].(stage := stage)])
  }

  /** handleMethodResponse and handleException: a reply without an empty slot closes the connection. */
  function Handle(s: State, m: Message): (r: State) {
    if m.Notice? || m.id == 0 then s
    else if m.id in s.slots && s.slots[m.id].Pending? then
      s.(slots := s.slots[m.id := Holds(m)], answered := s.answered + {m.id})
    else s.(connected := false)
  }

  function Served(s: State, service: Service): (r: State)
    requires s.toServer != []
  {
    var q, s' := s.toServer[0], s.(toServer := s.toServer[1..]);
    match service
    case Respond(result) => s'.(toClient := s.toClient + [Reply(q.id, q.body, false, result)])
    case Refuse(reason) => s'.(toClient := s.toClient + [Reply(q.id, q.body, true, reason)])
    case FailToSend => s'.(lost := s.lost + {q.id})
    case Drop => s'.(connected := false)
  }

  function Finished(s: State, id: nat): (r: State)
    requires id in s.calls
  {
    match s.calls[id].stage
    case TimedOut => Advance(s, id, Returned(NoReply)).(slots := s.slots - {id})
    case Got(m) =>
      var outcome := if m.Reply? && m.isException then Failure(m) else Answer(m);
      Advance(s, id, Returned(outcome)).(slots := s.slots - {id})
    case _ => s
  }

  /** Actions that are not possible in a state leave it as it is. */
  function Step(s: State, a: Action): (r: State) {
    match a
    case Begin(body) =>
      if !s.connected then s else s.(next := s.next + 1, calls := s.calls[s.next := Call(body, Numbered)])
    case Post(id, delivered) =>
      if !AtStage(s, id, Numbered) then s
      else
        var s' := Advance(s, id, Waiting).(slots := s.slots[id := Pending]);
        if delivered && s.connected then s'.(toServer := s.toServer + [Request(id, s.calls[id].body)]) else s'
    case Serve(service) => if s.toServer == [] then s else Served(s, service)
    case Broadcast(text) => s.(toClient := s.toClient + [Notice(text)])
    case Receive =>
      if !s.connected || s.toClient == [] then s
      else Handle(s.(toClient := s.toClient[1..]), s.toClient[0])
    case Expire(id) =>
      if AtStage(s, id, Waiting) && id in s.slots && s.slots[id].Pending? then Advance(s, id, TimedOut) else s
    case Take(id) =>
      if AtStage(s, id, Waiting) && id in s.slots && s.slots[id].Holds?
      then Advance(s, id, Got(s.slots[id].message)) else s
    case Finish(id) => if id in s.calls then Finished(s, id) else s
    case Disconnect => s.(connected := false)
  }

  function Run(s: State, actions: seq<Action>): (r: State)
    decreases |actions|
  {
    if actions == [] then s else Run(Step(s, actions[0]), actions[1..])
  }

  // ----- The invariant

  /** `m` is a reply to the request of call `id`. */
  predicate ReplyTo(s: State, m: Message, id: nat) {
    m.Reply? && m.id == id && id in s.calls && m.cause == s.calls[id].body
  }

  predicate Sent(s: State, id: nat) {
    id in s.calls && s.calls[id].stage != Numbered
  }

  /** Where a call stands agrees with its slot. */
  predicate CallFits(s: State, id: nat)
    requires id in s.calls
  {
    match s.calls[id].stage
    case Numbered => id !in s.slots && id !in s.answered
    case Waiting => id in s.slots
    case TimedOut => id in s.slots
    case Got(m) => id in s.slots && s.slots[id] == Holds(m)
    case Returned(Answer(m)) => id !in s.slots && id in s.answered && ReplyTo(s, m, id) && !m.isException
    case Returned(Failure(m)) => id !in s.slots && id in s.answered && ReplyTo(s, m, id) && m.isException
    case Returned(NoReply) => id !in s.slots
  }

  predicate SlotFits(s: State, id: nat)
    requires id in s.slots
  {
    id in s.calls && match s.slots[id]
      case Pending => id !in s.answered
      case Holds(m) => id in s.answered && ReplyTo(s, m, id)
  }

  predicate CallsFit(s: State) {
    && s.next >= 1
    && (forall id :: id in s.calls ==> 1 <= id < s.next && CallFits(s, id))
    && (forall id :: id in s.slots ==> SlotFits(s, id))
    && (forall id :: id in s.answered ==> id in s.calls)
    && (forall id :: id in s.lost ==> Sent(s, id) && id !in s.answered)
  }

  /** The fate of a request has been settled. */
  predicate Settled(s: State, id: nat) {
    id in s.answered || id in s.lost
  }

  /** Requests under way: no two for one call, and none for a call whose request is settled. */
  predicate RequestsFit(s: State) {
    && (forall i :: 0 <= i < |s.toServer| ==>
      Sent(s, s.toServer[i].id) && s.toServer[i].body == s.calls[s.toServer[i].id].body
        && !Settled(s, s.toServer[i].id))
    && (forall i, j :: 0 <= i < j < |s.toServer| ==> s.toServer[i].id != s.toServer[j].id)
  }

  predicate RepliesFit(s: State) {
    && (forall i :: 0 <= i < |s.toClient| && s.toClient[i].Reply? ==>
      Sent(s, s.toClient[i].id) && ReplyTo(s, s.toClient[i], s.toClient[i].id) && !Settled(s, s.toClient[i].id))
    && (forall i, j :: 0 <= i < j < |s.toClient| && s.toClient[i].Reply? && s.toClient[j].Reply? ==>
      s.toClient[i].id != s.toClient[j].id)
    && (forall i, j :: 0 <= i < |s.toServer| && 0 <= j < |s.toClient| && s.toClient[j].Reply? ==>
      s.toServer[i].id != s.toClient[j].id)
  }

  predicate Good(s: State) {
    CallsFit(s) && RequestsFit(s) && RepliesFit(s)
  }

  lemma BeginKeeps(s: State, body: string)
    requires Good(s)
    ensures Good(Step(s, Begin(body)))
  {
    var s' := Step(s, Begin(body));
    forall id | id in s'.calls ensures CallFits(s', id) {
      if id in s.calls {
        assert CallFits(s, id);
      }
    }
    forall id | id in s'.slots ensures SlotFits(s', id) {
      assert SlotFits(s, id);
    }
  }

  lemma PostedCallsFit(s: State, id: nat, s': State)
    requires CallsFit(s) && AtStage(s, id, Numbered)
    requires s'.calls == s.calls[id := s.calls[id].(stage := Waiting)] && s'.slots == s.slots[id := Pending]
    requires s'.next == s.next && s'.answered == s.answered && s'.lost == s.lost
    ensures CallsFit(s')
  {
    assert CallFits(s, id);
    forall i | i in s'.calls ensures CallFits(s', i) {
      assert CallFits(s, i);
    }
    forall i | i in s'.slots ensures SlotFits(s', i) {
      assert i in s.slots ==> SlotFits(s, i);
    }
  }

  lemma PostKeeps(s: State, id: nat, delivered: bool)
    requires Good(s)
    ensures Good(Step(s, Post(id, delivered)))
  {
    var s' := Step(s, Post(id, delivered));
    if AtStage(s, id, Numbered) {
      PostedCallsFit(s, id, s');
      assert CallFits(s, id);
    }
  }

  lemma ServeKeeps(s: State, service: Service)
    requires Good(s)
    ensures Good(Step(s, Serve(service)))
  {
    hide CallFits, SlotFits;
    var s' := Step(s, Serve(service));
    if s.toServer != [] {
      assert Sent(s, s.toServer[0].id) && !Settled(s, s.toServer[0].id);
    }
    SameCalls(s, s');
  }

  lemma SameCalls(s: State, s': State)
    requires CallsFit(s) && s'.calls == s.calls && s'.slots == s.slots && s'.answered == s.answered && s'.next == s.next
    requires forall id :: id in s'.lost ==> Sent(s, id) && id !in s.answered
    ensures CallsFit(s')
  {
    forall id | id in s'.calls ensures CallFits(s', id) {
      assert CallFits(s, id);
    }
    forall id | id in s'.slots ensures SlotFits(s', id) {
      assert SlotFits(s, id);
    }
  }

  lemma BroadcastKeeps(s: State, text: string)
    requires Good(s)
    ensures Good(Step(s, Broadcast(text)))
  {
    SameCalls(s, Step(s, Broadcast(text)));
  }

  lemma ReceiveKeeps(s: State)
    requires Good(s)
    ensures Good(Step(s, Receive))
  {
    var s' := Step(s, Receive);
    if s.connected && s.toClient != [] {
      var m := s.toClient[0];
      if m.Reply? {
        assert ReplyTo(s, m, m.id) && CallFits(s, m.id);
      }
      ReceivedCallsFit(s);
    }
  }

  lemma ReceivedCallsFit(s: State)
    requires Good(s) && s.connected && s.toClient != []
    ensures CallsFit(Step(s, Receive))
  {
    hide RequestsFit;
    var s', m := Step(s, Receive), s.toClient[0];
    if m.Reply? {
      assert ReplyTo(s, m, m.id) && CallFits(s, m.id) && !Settled(s, m.id);
    }
    forall id | id in s'.calls ensures CallFits(s', id) {
      assert CallFits(s, id);
      assert id in s.slots ==> SlotFits(s, id);
    }
    forall id | id in s'.slots ensures SlotFits(s', id) {
      assert SlotFits(s, id);
    }
  }

  /** Only the stage of call `id` and its slot have changed. */
  predicate OnlyCaller(s: State, s': State, id: nat) {
    && id in s.calls && s'.next == s.next && s'.answered == s.answered && s'.lost == s.lost
    && s'.toServer == s.toServer && s'.toClient == s.toClient
    && s'.calls.Keys == s.calls.Keys && s'.calls[id].body == s.calls[id].body
    && s.calls[id].stage != Numbered && s'.calls[id].stage != Numbered
    && (forall i :: i in s.calls && i != id ==> s'.calls[i] == s.calls[i])
    && (forall i :: i in s'.slots ==> i in s.slots && s'.slots[i] == s.slots[i])
    && (forall i :: i in s.slots && i != id ==> i in s'.slots)
  }

  lemma OneCallerMoved(s: State, s': State, id: nat)
    requires Good(s) && OnlyCaller(s, s', id) && CallFits(s', id)
    ensures Good(s')
  {
    forall i | i in s'.calls ensures CallFits(s', i) {
      assert CallFits(s, i);
    }
    forall i | i in s'.slots ensures SlotFits(s', i) {
      assert SlotFits(s, i);
    }
  }

  lemma CallerKeeps(s: State, a: Action)
    requires Good(s) && (a.Expire? || a.Take? || a.Finish?)
    ensures Good(Step(s, a))
  {
    var s' := Step(s, a);
    if s' != s {
      assert CallFits(s, a.id);
      assert a.id in s.slots ==> SlotFits(s, a.id);
      OneCallerMoved(s, s', a.id);
    }
  }

  lemma StepKeeps(s: State, a: Action)
    requires Good(s)
    ensures Good(Step(s, a))
  {
    hide Good, Step;
    match a
    case Begin(body) => BeginKeeps(s, body);
    case Post(id, delivered) => PostKeeps(s, id, delivered);
    case Serve(service) => ServeKeeps(s, service);
    case Broadcast(text) => BroadcastKeeps(s, text);
    case Receive => ReceiveKeeps(s);
    case Expire(_) => CallerKeeps(s, a);
    case Take(_) => CallerKeeps(s, a);
    case Finish(_) => CallerKeeps(s, a);
    case Disconnect => DisconnectKeeps(s);
  }

  lemma DisconnectKeeps(s: State)
    requires Good(s)
    ensures Good(Step(s, Disconnect))
  {
    SameCalls(s, Step(s, Disconnect));
  }

  lemma {:induction false} RunKeeps(s: State, actions: seq<Action>)
    requires Good(s)
    ensures Good(Run(s, actions))
    decreases |actions|
  {
    hide Good, Step;
    if actions != [] {
      StepKeeps(s, actions[0]);
      RunKeeps(Step(s, actions[0]), actions[1..]);
    }
  }

  // ----- What callers can rely on

  /** In every run a call that returns with a reply or an exception has the one to its own request. */
  lemma OwnReply(actions: seq<Action>, id: nat)
    ensures
      var s := Run(INITIAL, actions);
      id in s.calls && s.calls[id].stage.Returned? && s.calls[id].stage.outcome != NoReply ==>
        var m := s.calls[id].stage.outcome.message;
        ReplyTo(s, m, id) && (m.isException <==> s.calls[id].stage.outcome.Failure?)
  {
    RunKeeps(INITIAL, actions);
    var s := Run(INITIAL, actions);
    assert id in s.calls ==> CallFits(s, id);
  }

  predicate Fulfils(s: State, a: Action, id: nat) {
    id in Step(s, a).slots && Step(s, a).slots[id].Holds? && (id !in s.slots || s.slots[id].Pending?)
  }

  function Fulfilments(s: State, actions: seq<Action>, id: nat): (n: nat)
    decreases |actions|
  {
    if actions == [] then 0
    else (if Fulfils(s, actions[0], id) then 1 else 0) + Fulfilments(Step(s, actions[0]), actions[1..], id)
  }

  lemma FulfilmentIsRecorded(s: State, a: Action, id: nat)
    requires Good(s)
    ensures Fulfils(s, a, id) ==> id !in s.answered && id in Step(s, a).answered
    ensures id in s.answered ==> id in Step(s, a).answered
  {
    hide RequestsFit, RepliesFit, CallFits;
    if id in s.slots {
      assert SlotFits(s, id);
    }
  }

  /** In every run a slot is given a value at most once. */
  lemma {:induction false} FulfilledAtMostOnce(s: State, actions: seq<Action>, id: nat)
    requires Good(s)
    ensures Fulfilments(s, actions, id) <= if id in s.answered then 0 else 1
    decreases |actions|
  {
    hide Good, Step, Fulfils;
    if actions != [] {
      StepKeeps(s, actions[0]);
      FulfilmentIsRecorded(s, actions[0], id);
      FulfilledAtMostOnce(Step(s, actions[0]), actions[1..], id);
    }
  }

  /**
   * The receive loop closes the connection exactly if the next reply belongs to a call that has given
   * up and returned; such a reply changes no slot and no call.
   */
  lemma LateReply(s: State)
    requires Good(s) && s.connected && s.toClient != []
    ensures
      var m, s' := s.toClient[0], Step(s, Receive);
      && (!s'.connected <==> m.Reply? && AtStage(s, m.id, Returned(NoReply)))
      && (!s'.connected ==> s'.slots == s.slots && s'.calls == s.calls)
      && (s'.connected && m.Reply? ==> m.id in s'.slots && s'.slots[m.id] == Holds(m))
  {
    var m := s.toClient[0];
    if m.Reply? {
      assert Sent(s, m.id) && CallFits(s, m.id) && m.id !in s.answered;
      if m.id in s.slots {
        assert SlotFits(s, m.id);
      }
    }
  }

  /** A call whose slot holds a reply returns with it, as an exception if it is one, and its slot is gone. */
  lemma HeldReplyIsReturned(s: State, id: nat)
    requires Good(s) && AtStage(s, id, Waiting) && id in s.slots && s.slots[id].Holds?
    ensures
      var m, s' := s.slots[id].message, Step(Step(s, Take(id)), Finish(id));
      && AtStage(s', id, Returned(if m.isException then Failure(m) else Answer(m)))
      && s'.slots == s.slots - {id} && s'.connected == s.connected
      && s'.calls == s.calls[id := s'.calls[id]]
  {
    assert SlotFits(s, id);
  }

  /** A call whose slot is empty can give up, and then returns without a reply. */
  lemma WaitingCanGiveUp(s: State, id: nat)
    requires Good(s) && AtStage(s, id, Waiting) && id in s.slots && s.slots[id].Pending?
    ensures
      var s' := Step(Step(s, Expire(id)), Finish(id));
      AtStage(s', id, Returned(NoReply)) && s'.slots == s.slots - {id} && s'.connected == s.connected
  {
  }

  /**
   * The whole way of a call on a quiet connection: what the server answers to the request, or the reason
   * for which it refuses, is what the call returns with.
   */
  lemma CallReturns(s: State, body: string, service: Service)
    requires Good(s) && s.connected && s.toServer == [] && s.toClient == [] && (service.Respond? || service.Refuse?)
    ensures
      var id := s.next;
      var s' := Run(s, [Begin(body), Post(id, true), Serve(service), Receive, Take(id), Finish(id)]);
      && s'.connected && id !in s'.slots
      && AtStage(s', id, Returned(match service
                                  case Respond(result) => Answer(Reply(id, body, false, result))
                                  case _ => Failure(Reply(id, body, true, service.reason))))
  {
    hide Good, Run, Step;
    var id := s.next;
    var actions := [Begin(body), Post(id, true), Serve(service), Receive, Take(id), Finish(id)];
    assert id >= 1 by { NextIsPositive(s); }
    var s2 := Step(Step(s, Begin(body)), Post(id, true));
    assert RequestSent(s2, id, body) by { BeginAndPost(s, body); }
    ServedAndReturned(s2, id, body, service);
    RunOfSix(s, actions);
  }

  predicate RequestSent(s: State, id: nat, body: string) {
    && s.connected && s.toClient == [] && s.toServer == [Request(id, body)] && id >= 1
    && AtStage(s, id, Waiting) && id in s.slots && s.slots[id] == Pending
  }

  lemma BeginAndPost(s: State, body: string)
    requires s.connected && s.toServer == [] && s.toClient == [] && s.next >= 1
    ensures RequestSent(Step(Step(s, Begin(body)), Post(s.next, true)), s.next, body)
  {
  }

  lemma ServedAndReturned(s: State, id: nat, body: string, service: Service)
    requires RequestSent(s, id, body) && (service.Respond? || service.Refuse?)
    ensures
      var s' := Step(Step(Step(Step(s, Serve(service)), Receive), Take(id)), Finish(id));
      && s'.connected && id !in s'.slots
      && AtStage(s', id, Returned(match service
                                  case Respond(result) => Answer(Reply(id, body, false, result))
                                  case _ => Failure(Reply(id, body, true, service.reason))))
  {
    var s1 := Step(s, Serve(service));
    var s2 := Step(s1, Receive);
    assert |s1.toClient| == 1 && s2.slots[id] == Holds(s1.toClient[0]) && AtStage(s2, id, Waiting);
  }

  lemma NextIsPositive(s: State)
    requires Good(s)
    ensures s.next >= 1
  {
  }

  lemma RunOfSix(s: State, a: seq<Action>)
    requires |a| == 6
    ensures Run(s, a) == Step(Step(Step(Step(Step(Step(s, a[0]), a[1]), a[2]), a[3]), a[4]), a[5])
  {
    hide Step;
    assert a[1..][1..] == a[2..] && a[2..][1..] == a[3..] && a[3..][1..] == a[4..] && a[4..][1..] == a[5..];
    assert a[5..][1..] == [];
    var s1 := Step(s, a[0]);
    var s3 := Step(Step(s1, a[1]), a[2]);
    var s5 := Step(Step(s3, a[3]), a[4]);
    assert Run(s, a) == Run(s1, a[1..]) == Run(s3, a[3..]) == Run(s5, a[5..]) == Run(Step(s5, a[5]), []);
  }

  /** On a closed connection no call begins, nothing is sent and nothing is received. */
  lemma NoTrafficWhenClosed(s: State, a: Action)
    requires !s.connected
    ensures
      var s' := Step(s, a);
      && !s'.connected && |s'.toServer| <= |s.toServer| && s'.calls.Keys == s.calls.Keys && s'.answered == s.answered
      && (a.Receive? ==> s' == s)
  {
  }

  /** A message only ever reaches the slot of its own request. */
  lemma ReceiveTouchesOneSlot(s: State, id: nat)
    requires Good(s) && s.connected && s.toClient != [] && id in s.slots
    ensures
      var m, s' := s.toClient[0], Step(s, Receive);
      id in s'.slots && (s'.slots[id] != s.slots[id] ==> ReplyTo(s, m, id) && s'.slots[id] == Holds(m))
  {
    if s.toClient[0].Reply? {
      assert ReplyTo(s, s.toClient[0], s.toClient[0].id);
    }
  }

  // ----- Which requests get their reply

  /** The request or its reply is still under way, or the slot holds the reply. */
  predicate UnderWay(s: State, id: nat) {
    InRequests(s.toServer, id) || InReplies(s.toClient, id) || (id in s.slots && s.slots[id].Holds?)
  }

  predicate InRequests(rs: seq<Request>, id: nat) {
    exists i :: 0 <= i < |rs| && rs[i].id == id
  }

  predicate InReplies(ms: seq<Message>, id: nat) {
    exists i :: 0 <= i < |ms| && ms[i].Reply? && ms[i].id == id
  }

  /** A closed connection stays closed, and a caller that stopped waiting does not wait again. */
  lemma NoWayBack(s: State, a: Action, id: nat)
    requires Good(s) && Sent(s, id)
    ensures !s.connected ==> !Step(s, a).connected
    ensures Sent(Step(s, a), id) && (AtStage(Step(s, a), id, Waiting) ==> AtStage(s, id, Waiting))
  {
    hide RequestsFit, RepliesFit, CallFits, SlotFits;
  }

  lemma RequestMovesOn(s: State, a: Action, id: nat)
    requires InRequests(s.toServer, id) && s.connected && Step(s, a).connected && id !in Step(s, a).lost
    ensures InRequests(Step(s, a).toServer, id) || InReplies(Step(s, a).toClient, id)
  {
    var s' := Step(s, a);
    var i :| 0 <= i < |s.toServer| && s.toServer[i].id == id;
    if a.Serve? && i == 0 {
      assert s'.toClient[|s.toClient|].Reply? && s'.toClient[|s.toClient|].id == id;
    } else {
      assert s'.toServer[if a.Serve? then i - 1 else i].id == id;
    }
  }

  lemma ReplyMovesOn(s: State, a: Action, id: nat)
    requires Good(s) && InReplies(s.toClient, id) && s.connected && Step(s, a).connected
    ensures
      var s' := Step(s, a);
      InReplies(s'.toClient, id) || (id in s'.slots && s'.slots[id].Holds?)
  {
    hide Good;
    var s' := Step(s, a);
    var i :| 0 <= i < |s.toClient| && s.toClient[i].Reply? && s.toClient[i].id == id;
    if a.Receive? && i == 0 {
      LateReply(s);
    } else {
      assert s'.toClient[if a.Receive? then i - 1 else i] == s.toClient[i];
    }
  }

  lemma StaysUnderWay(s: State, a: Action, id: nat)
    requires Good(s) && Sent(s, id) && UnderWay(s, id)
    requires Step(s, a).connected && AtStage(Step(s, a), id, Waiting) && id !in Step(s, a).lost
    ensures UnderWay(Step(s, a), id)
  {
    hide Good, InRequests, InReplies;
    NoWayBack(s, a, id);
    if InRequests(s.toServer, id) {
      RequestMovesOn(s, a, id);
    } else if InReplies(s.toClient, id) {
      ReplyMovesOn(s, a, id);
    }
  }

  /** A lost request is not under way, and what is lost stays lost. */
  lemma LostIsGone(s: State, a: Action, id: nat)
    requires Good(s)
    ensures id in s.lost ==> !UnderWay(s, id) && id in Step(s, a).lost
  {
    if id in s.slots {
      assert SlotFits(s, id);
    }
  }

  lemma {:induction false} UnderWayUnlessLost(s: State, actions: seq<Action>, id: nat)
    requires Good(s) && Sent(s, id) && (s.connected && AtStage(s, id, Waiting) && id !in s.lost ==> UnderWay(s, id))
    ensures var s' := Run(s, actions);
      s'.connected && AtStage(s', id, Waiting) ==> (UnderWay(s', id) <==> id !in s'.lost)
    decreases |actions|
  {
    hide Good, Step, UnderWay;
    LostIsGone(s, Disconnect, id);
    if actions != [] {
      var s1 := Step(s, actions[0]);
      LostIsGone(s, actions[0], id);
      StepKeeps(s, actions[0]);
      NoWayBack(s, actions[0], id);
      if s1.connected && AtStage(s1, id, Waiting) && id !in s1.lost {
        StaysUnderWay(s, actions[0], id);
      }
      UnderWayUnlessLost(s1, actions[1..], id);
    }
  }

  /**
   * Of a request that was sent over a live connection: over every run, while the connection lives and
   * the caller still waits, the request or its reply is under way or the reply is in the slot of the
   * caller, except exactly if the server failed to send the reply.
   */
  lemma DeliveredUnlessLost(s: State, id: nat, actions: seq<Action>)
    requires Good(s) && s.connected && AtStage(s, id, Numbered)
    ensures var s' := Run(Step(s, Post(id, true)), actions);
      s'.connected && AtStage(s', id, Waiting) ==> (UnderWay(s', id) <==> id !in s'.lost)
  {
    StepKeeps(s, Post(id, true));
    var s1 := Step(s, Post(id, true));
    assert s1.toServer[|s.toServer|].id == id;
    UnderWayUnlessLost(s1, actions, id);
  }

  /** A call whose reply was lost can only give up. */
  lemma LostCallsGiveUp(actions: seq<Action>, id: nat)
    ensures
      var s := Run(INITIAL, actions);
      id in s.lost ==> id in s.calls && (s.calls[id].stage.Returned? ==> s.calls[id].stage.outcome == NoReply)
  {
    RunKeeps(INITIAL, actions);
    var s := Run(INITIAL, actions);
    assert id in s.calls ==> CallFits(s, id);
  }

  /** The failure is reached: the connection lives, the caller waits, and no reply will come. */
  lemma ReplyCanBeLost(body: string)
    ensures
      var s := Run(INITIAL, [Begin(body), Post(1, true), Serve(FailToSend)]);
      s.connected && AtStage(s, 1, Waiting) && 1 in s.lost && !UnderWay(s, 1)
  {
    var actions := [Begin(body), Post(1, true), Serve(FailToSend)];
    var s1 := Step(INITIAL, actions[0]);
    var s2 := Step(s1, actions[1]);
    var s3 := Step(s2, actions[2]);
    assert s2.toServer == [Request(1, body)];
    assert actions[1..] == [Post(1, true), Serve(FailToSend)] && actions[1..][1..] == [Serve(FailToSend)];
    assert Run(s1, actions[1..]) == Run(s2, actions[1..][1..]) == Run(s3, []);
  }
}
