/**
 The asynchronous pipe RPC client against its server, over all interleavings
 (queueserver_service/common/comms.py PipeJsonRpcSendAsync and PipeJsonRpcReceive).

 Processes: the one `send_msg` inside `_lock_comm`, the client's send and receive threads, the
 callbacks they schedule on the event loop, and the server's receive and process threads.
 Message ids are fresh (uuid4). Messages and replies may be lost, replies duplicated and
 reordered, and every wait may time out.
 */
module PipeRpc {
  import opened Models
  import opened JsonRpc

  /** A message as `format_jsonrpc_msg` builds it; the id of a notification is not transmitted. */
  datatype Request = Request(id: string, call: string, params: Option<Json>, notification: bool)

  function FormatMsg(r: Request): Json {
    var bare := map["method" := String(r.call), "jsonrpc" := String("2.0")];
    var full := if r.params.Some? then bare["params" := r.params.value] else bare;
    Object(if r.notification then full else full["id" := String(r.id)])
  }

  datatype Outcome =
    | Returned(result: Json)
    | Failed(code: int)      // CommJsonRpcError
    | TimedOut
    | BufferFull             // also reported as CommTimeoutError
    | Sent                   // a notification

  /** Where the `send_msg` that holds the lock is; `Unlocked` when nobody holds it. */
  datatype Sending =
    | Unlocked
    | AwaitSend(r: Request)
    | AwaitReply(r: Request)
    | Leaving(r: Request, outcome: Outcome)   // about to run the finally block

  datatype Future = NoFuture | Pending | Done(response: Response) | Cancelled

  /** The server handled a request: what it replied, whether a handler ran, and what that did. */
  datatype Handling = Handling(id: string, response: Option<Response>, invoked: bool, outcome: HandlerOutcome)

  datatype System = System(
    sending: Sending,
    expected: Option<string>,      // _expected_msg_id
    future: Future,                // _fut_recv
    sent: bool,                    // fut_send of the current call is done
    buffer: Option<Request>,       // _msg_send_buffer, one slot
    outbox: Option<Request>,       // taken by the send thread, not yet in the pipe
    acks: seq<string>,             // scheduled _response_sent tasks
    toServer: seq<Request>,
    inbox: seq<Request>,           // _msg_recv_buffer, 100 slots
    replying: Option<Response>,    // computed by the server, not yet in the pipe
    toClient: seq<Response>,
    tasks: seq<Response>,          // scheduled _response_received tasks
    issued: set<string>,
    handlings: seq<Handling>,
    outcomes: map<string, Outcome>)

  const INBOX_SIZE := 100

  datatype Action =
    | Call(r: Request)
    | TakeFromBuffer | PipeSend | PipeSendFails
    | AckRuns(i: nat)
    | SendDone | SendTimesOut
    | ServerReceives
    | ServerHandles(outcome: HandlerOutcome)
    | ServerReplies | ServerReplyFails
    | ClientReceives
    | TaskRuns(i: nat)
    | ReplyDone | ReplyTimesOut
    | Leave
    | LoseRequest(i: nat) | LoseReply(i: nat) | DuplicateReply(i: nat)

  function DropAt<T>(s: seq<T>, i: nat): seq<T>
    requires i < |s|
  {
    s[..i] + s[i + 1..]
  }

  predicate Enabled(s: System, a: Action) {
    match a
    case Call(r) => s.sending.Unlocked? && r.id !in s.issued
    case TakeFromBuffer => s.buffer.Some? && s.outbox.None?
    case PipeSend => s.outbox.Some?
    case PipeSendFails => s.outbox.Some?
    case AckRuns(i) => i < |s.acks|
    case SendDone => s.sending.AwaitSend? && s.sent
    case SendTimesOut => s.sending.AwaitSend? && !s.sent
    case ServerReceives => s.toServer != []
    case ServerHandles(_) => s.inbox != [] && s.replying.None?
    case ServerReplies => s.replying.Some?
    case ServerReplyFails => s.replying.Some?
    case ClientReceives => s.toClient != []
    case TaskRuns(i) => i < |s.tasks|
    case ReplyDone => s.sending.AwaitReply? && s.future.Done?
    case ReplyTimesOut => s.sending.AwaitReply? && !s.future.Done?
    case Leave => s.sending.Leaving?
    case LoseRequest(i) => i < |s.toServer|
    case LoseReply(i) => i < |s.toClient|
    case DuplicateReply(i) => i < |s.toClient|
  }

  /** `_response_received`. */
  function Received(s: System, response: Response): System {
    if s.expected.None? || response.id != String(s.expected.value) then s
    else s.(future := if s.future.Pending? then Done(response) else s.future, expected := None)
  }

  function Next(server: Server, s: System, a: Action): System
    requires Enabled(s, a)
  {
    match a
    case Call(r) =>
      var called := s.(issued := s.issued + {r.id}, sent := false,
                       expected := if r.notification then None else Some(r.id),
                       future := if r.notification then NoFuture else Pending);
      if s.buffer.Some? then called.(sending := Leaving(r, BufferFull))
      else called.(buffer := Some(r), sending := AwaitSend(r))
    case TakeFromBuffer => s.(outbox := s.buffer, buffer := None)
    case PipeSend => s.(toServer := s.toServer + [s.outbox.value], acks := s.acks + [s.outbox.value.id], outbox := None)
    case PipeSendFails => s.(outbox := None)
    case AckRuns(i) =>
      s.(acks := DropAt(s.acks, i), sent := s.sent || (s.sending.AwaitSend? && s.sending.r.id == s.acks[i]))
    case SendDone =>
      s.(sending := if s.sending.r.notification then Leaving(s.sending.r, Sent) else AwaitReply(s.sending.r))
    case SendTimesOut => s.(sending := Leaving(s.sending.r, TimedOut))
    case ServerReceives =>
      s.(toServer := s.toServer[1..], inbox := if |s.inbox| < INBOX_SIZE then s.inbox + [s.toServer[0]] else s.inbox)
    case ServerHandles(outcome) =>
      var handled := HandleSingle(server, FormatMsg(s.inbox[0]), outcome);
      var response := if handled.Handled? then handled.response else None;
      var invoked := handled.Handled? && handled.invoked;
      s.(inbox := s.inbox[1..], replying := response,
         handlings := s.handlings + [Handling(s.inbox[0].id, response, invoked, outcome)])
    case ServerReplies => s.(toClient := s.toClient + [s.replying.value], replying := None)
    case ServerReplyFails => s.(replying := None)
    case ClientReceives => s.(toClient := s.toClient[1..], tasks := s.tasks + [s.toClient[0]])
    case TaskRuns(i) => Received(s.(tasks := DropAt(s.tasks, i)), s.tasks[i])
    case ReplyDone =>
      s.(sending := Leaving(s.sending.r, match s.future.response.body
                                         case Result(result) => Returned(result)
                                         case Error(code) => Failed(code)))
    case ReplyTimesOut => s.(sending := Leaving(s.sending.r, TimedOut), future := Cancelled)
    case Leave =>
      s.(buffer := None, future := NoFuture, expected := None, sending := Unlocked,
         outcomes := s.outcomes[s.sending.r.id := s.sending.outcome])
    case LoseRequest(i) => s.(toServer := DropAt(s.toServer, i))
    case LoseReply(i) => s.(toClient := DropAt(s.toClient, i))
    case DuplicateReply(i) => s.(toClient := s.toClient + [s.toClient[i]])
  }

  const Start := System(Unlocked, None, NoFuture, false, None, None, [], [], [], None, [], [], {}, [], map[])

  predicate Behaviour(server: Server, s: System, actions: seq<Action>)
    decreases |actions|
  {
    actions == [] || (Enabled(s, actions[0]) && Behaviour(server, Next(server, s, actions[0]), actions[1..]))
  }

  function After(server: Server, s: System, actions: seq<Action>): System
    requires Behaviour(server, s, actions)
    decreases |actions|
  {
    if actions == [] then s else After(server, Next(server, s, actions[0]), actions[1..])
  }

  // ---------------------------------------------------------------------------
  // Conservation: a request is in one place at a time
  // ---------------------------------------------------------------------------

  function Copies(rs: seq<Request>, id: string): nat {
    if rs == [] then 0 else Copies(rs[..|rs| - 1], id) + if rs[|rs| - 1].id == id then 1 else 0
  }

  function CopiesHeld(r: Option<Request>, id: string): nat {
    if r.Some? && r.value.id == id then 1 else 0
  }

  function CopiesHandled(hs: seq<Handling>, id: string): nat {
    if hs == [] then 0 else CopiesHandled(hs[..|hs| - 1], id) + if hs[|hs| - 1].id == id then 1 else 0
  }

  /** The copies of a request, counted over every place it can be, the handled ones included. */
  function Tokens(s: System, id: string): nat {
    CopiesHeld(s.buffer, id) + CopiesHeld(s.outbox, id) + Copies(s.toServer, id) + Copies(s.inbox, id) +
    CopiesHandled(s.handlings, id)
  }

  lemma CopiesPlus(rs: seq<Request>, r: Request, id: string)
    ensures Copies(rs + [r], id) == Copies(rs, id) + if r.id == id then 1 else 0
  {
    assert (rs + [r])[..|rs|] == rs;
  }

  lemma {:induction false} CopiesWithout(rs: seq<Request>, i: nat, id: string)
    requires i < |rs|
    ensures Copies(rs, id) == Copies(DropAt(rs, i), id) + if rs[i].id == id then 1 else 0
  {
    var last := |rs| - 1;
    if i < last {
      CopiesWithout(rs[..last], i, id);
      assert DropAt(rs, i)[..last - 1] == DropAt(rs[..last], i);
    } else {
      assert DropAt(rs, i) == rs[..last];
    }
  }

  lemma CopiesTail(rs: seq<Request>, id: string)
    requires rs != []
    ensures Copies(rs, id) == Copies(rs[1..], id) + if rs[0].id == id then 1 else 0
  {
    CopiesWithout(rs, 0, id);
    assert DropAt(rs, 0) == rs[1..];
  }

  lemma HandledPlus(hs: seq<Handling>, h: Handling, id: string)
    ensures CopiesHandled(hs + [h], id) == CopiesHandled(hs, id) + if h.id == id then 1 else 0
  {
    assert (hs + [h])[..|hs|] == hs;
  }

  /** How many copies of a request a step loses. */
  function Lost(s: System, a: Action, id: string): nat
    requires Enabled(s, a)
  {
    match a
    case Call(r) => if s.buffer.Some? && r.id == id then 1 else 0
    case PipeSendFails => CopiesHeld(s.outbox, id)
    case ServerReceives => if |s.inbox| >= INBOX_SIZE && s.toServer[0].id == id then 1 else 0
    case Leave => CopiesHeld(s.buffer, id)
    case LoseRequest(i) => if s.toServer[i].id == id then 1 else 0
    case _ => 0
  }

  /**
   No step makes a second copy of a request; a call adds the first one. One is lost only when a
   full buffer refuses it or is emptied, the pipe fails or loses it, or the server's queue is full.
   */
  lemma TokensConserved(server: Server, s: System, a: Action, id: string)
    requires Enabled(s, a)
    ensures Tokens(Next(server, s, a), id) + Lost(s, a, id) == Tokens(s, id) + if a.Call? && a.r.id == id then 1 else 0
  {
    if a.PipeSend? {
      CopiesPlus(s.toServer, s.outbox.value, id);
    } else if a.ServerReceives? {
      ReceivingConserves(server, s, id);
    } else if a.ServerHandles? {
      HandlingConserves(server, s, a.outcome, id);
    } else if a.LoseRequest? {
      CopiesWithout(s.toServer, a.i, id);
    }
  }

  lemma ReceivingConserves(server: Server, s: System, id: string)
    requires Enabled(s, ServerReceives)
    ensures Tokens(Next(server, s, ServerReceives), id) + Lost(s, ServerReceives, id) == Tokens(s, id)
  {
    CopiesTail(s.toServer, id);
    CopiesPlus(s.inbox, s.toServer[0], id);
  }

  lemma HandlingConserves(server: Server, s: System, outcome: HandlerOutcome, id: string)
    requires Enabled(s, ServerHandles(outcome))
    ensures Tokens(Next(server, s, ServerHandles(outcome)), id) == Tokens(s, id)
  {
    CopiesTail(s.inbox, id);
    HandledPlus(s.handlings, Next(server, s, ServerHandles(outcome)).handlings[|s.handlings|], id);
  }

  ghost predicate OneCopyEach(s: System) {
    forall id :: Tokens(s, id) <= if id in s.issued then 1 else 0
  }

  lemma OneCopyKept(server: Server, s: System, a: Action)
    requires Enabled(s, a) && OneCopyEach(s)
    ensures OneCopyEach(Next(server, s, a))
  {
    var after := Next(server, s, a);
    assert after.issued == if a.Call? then s.issued + {a.r.id} else s.issued;
    forall id: string
      ensures Tokens(after, id) <= if id in after.issued then 1 else 0
    {
      TokensConserved(server, s, a, id);
      assert Tokens(s, id) <= if id in s.issued then 1 else 0;
    }
  }

  // ---------------------------------------------------------------------------
  // Replies are genuine
  // ---------------------------------------------------------------------------

  /** The server handled the request with this id, and this is what it replied. */
  ghost predicate Genuine(hs: seq<Handling>, response: Response) {
    exists i :: 0 <= i < |hs| && hs[i].response == Some(response)
  }

  /** A recorded handling replies under its own id, with what its handler did. */
  predicate HonestHandling(h: Handling) {
    h.response.Some? ==>
      && h.response.value.id == String(h.id)
      && (h.response.value.body.Result? ==> h.invoked && h.outcome == Returns(h.response.value.body.result))
      && (h.response.value.body == Error(-32000) ==> h.invoked && h.outcome.Raises?)
      && (h.response.value.body.Error? && h.response.value.body != Error(-32000) ==> !h.invoked)
  }

  ghost predicate RepliesGenuine(s: System) {
    && (forall i :: 0 <= i < |s.handlings| ==> HonestHandling(s.handlings[i]))
    && (s.replying.Some? ==> Genuine(s.handlings, s.replying.value))
    && AllGenuine(s.handlings, s.toClient)
    && AllGenuine(s.handlings, s.tasks)
    && (s.future.Done? ==> Genuine(s.handlings, s.future.response))
  }

  /** The message a client sends is one the server recognises, answered under its own id. */
  lemma HandledHonestly(server: Server, r: Request, outcome: HandlerOutcome)
    ensures var handled := HandleSingle(server, FormatMsg(r), outcome);
      && handled.Handled?
      && (handled.response.Some? <==> !r.notification)
      && HonestHandling(Handling(r.id, handled.response, handled.invoked, outcome))
  {
    var msg := FormatMsg(r);
    assert WellFormedCall(msg);
    if r.notification {
      NotificationUnanswered(server, msg, outcome);
    } else {
      RequestAnswered(server, msg, outcome);
    }
  }

  lemma GenuineKept(hs: seq<Handling>, h: Handling)
    ensures forall response :: Genuine(hs, response) ==> Genuine(hs + [h], response)
  {
    forall response | Genuine(hs, response)
      ensures Genuine(hs + [h], response)
    {
      var i :| 0 <= i < |hs| && hs[i].response == Some(response);
      assert (hs + [h])[i] == hs[i];
    }
  }

  lemma HandlingKeepsGenuine(server: Server, s: System, outcome: HandlerOutcome)
    requires Enabled(s, ServerHandles(outcome)) && RepliesGenuine(s)
    ensures RepliesGenuine(Next(server, s, ServerHandles(outcome)))
  {
    var after := Next(server, s, ServerHandles(outcome));
    HandledHonestly(server, s.inbox[0], outcome);
    GenuineKept(s.handlings, after.handlings[|s.handlings|]);
    if after.replying.Some? {
      assert after.handlings[|s.handlings|].response == Some(after.replying.value);
    }
  }

  predicate CarriesReply(a: Action) {
    a.ServerReplies? || a.ClientReceives? || a.TaskRuns? || a.LoseReply? || a.DuplicateReply?
  }

  ghost predicate AllGenuine(hs: seq<Handling>, responses: seq<Response>) {
    forall i :: 0 <= i < |responses| ==> Genuine(hs, responses[i])
  }

  lemma GenuineMoves(hs: seq<Handling>, responses: seq<Response>, response: Response, i: nat)
    requires AllGenuine(hs, responses)
    ensures Genuine(hs, response) ==> AllGenuine(hs, responses + [response])
    ensures i < |responses| ==> AllGenuine(hs, DropAt(responses, i))
    ensures responses != [] ==> AllGenuine(hs, responses[1..])
  {
  }

  lemma CarriedReplyGenuine(server: Server, s: System, a: Action)
    requires Enabled(s, a) && CarriesReply(a) && RepliesGenuine(s)
    ensures RepliesGenuine(Next(server, s, a))
  {
    var hs := s.handlings;
    match a {
      case ServerReplies => GenuineMoves(hs, s.toClient, s.replying.value, 0);
      case ClientReceives =>
        GenuineMoves(hs, s.toClient, s.toClient[0], 0);
        GenuineMoves(hs, s.tasks, s.toClient[0], 0);
      case TaskRuns(i) => GenuineMoves(hs, s.tasks, s.tasks[i], i);
      case LoseReply(i) => GenuineMoves(hs, s.toClient, s.toClient[i], i);
      case DuplicateReply(i) => GenuineMoves(hs, s.toClient, s.toClient[i], i);
    }
  }

  lemma RepliesStayGenuine(server: Server, s: System, a: Action)
    requires Enabled(s, a) && RepliesGenuine(s)
    ensures RepliesGenuine(Next(server, s, a))
  {
    if a.ServerHandles? {
      HandlingKeepsGenuine(server, s, a.outcome);
    } else if CarriesReply(a) {
      CarriedReplyGenuine(server, s, a);
    } else {
      assert Next(server, s, a).handlings == s.handlings;
    }
  }

  // ---------------------------------------------------------------------------
  // The client's bookkeeping
  // ---------------------------------------------------------------------------

  /** Outside the lock the buffer is empty and nothing is expected; inside, both concern the holder. */
  predicate HolderOwns(s: System) {
    && (s.sending.Unlocked? ==> s.buffer.None? && s.expected.None? && s.future.NoFuture?)
    && (!s.sending.Unlocked? ==> s.sending.r.id in s.issued)
    && (s.expected.Some? ==> !s.sending.Unlocked? && s.expected.value == s.sending.r.id)
    && (s.future.Done? ==> !s.sending.Unlocked? && s.future.response.id == String(s.sending.r.id))
    && !(s.sending.Leaving? && s.sending.outcome.BufferFull?)
  }

  /** The steps of the caller itself. */
  predicate OfCaller(a: Action) {
    a.Call? || a.SendDone? || a.SendTimesOut? || a.ReplyDone? || a.ReplyTimesOut? || a.Leave?
  }

  lemma CallerStillOwns(server: Server, s: System, a: Action)
    requires Enabled(s, a) && OfCaller(a) && HolderOwns(s)
    ensures HolderOwns(Next(server, s, a))
  {
  }

  lemma ReceivedStillOwns(s: System, response: Response)
    requires HolderOwns(s)
    ensures HolderOwns(Received(s, response))
  {
  }

  lemma HolderStillOwns(server: Server, s: System, a: Action)
    requires Enabled(s, a) && HolderOwns(s)
    ensures HolderOwns(Next(server, s, a))
  {
    if OfCaller(a) {
      CallerStillOwns(server, s, a);
    } else if a.TaskRuns? {
      ReceivedStillOwns(s.(tasks := DropAt(s.tasks, a.i)), s.tasks[a.i]);
    }
  }

  /** What the caller of `send_msg` is told is true of the server. */
  ghost predicate OutcomeTrue(s: System, id: string, outcome: Outcome) {
    && id in s.issued
    && !outcome.BufferFull?
    && (outcome.Returned? ==> Genuine(s.handlings, Response(String(id), Result(outcome.result))))
    && (outcome.Failed? ==> Genuine(s.handlings, Response(String(id), Error(outcome.code))))
  }

  ghost predicate OutcomesTrue(s: System) {
    && (s.sending.Leaving? ==> OutcomeTrue(s, s.sending.r.id, s.sending.outcome))
    && (forall id :: id in s.outcomes ==> OutcomeTrue(s, id, s.outcomes[id]))
  }

  lemma CallerStepTrue(server: Server, s: System, a: Action)
    requires Enabled(s, a) && OfCaller(a) && RepliesGenuine(s) && HolderOwns(s) && OutcomesTrue(s)
    ensures OutcomesTrue(Next(server, s, a))
  {
    assert Next(server, s, a).handlings == s.handlings;
    if a.ReplyDone? {
      assert s.future.response == Response(String(s.sending.r.id), s.future.response.body);
    }
  }

  lemma OutcomesStayTrue(server: Server, s: System, a: Action)
    requires Enabled(s, a) && RepliesGenuine(s) && HolderOwns(s) && OutcomesTrue(s)
    ensures OutcomesTrue(Next(server, s, a))
  {
    if OfCaller(a) {
      CallerStepTrue(server, s, a);
    } else if a.ServerHandles? {
      HandlingStepTrue(server, s, a.outcome);
    } else {
      CarrierLeavesCaller(server, s, a);
    }
  }

  /** The pipe, the server's replies and the callbacks leave the outcomes and the handlings alone. */
  lemma CarrierLeavesCaller(server: Server, s: System, a: Action)
    requires Enabled(s, a) && !OfCaller(a) && !a.ServerHandles?
    ensures var after := Next(server, s, a);
      && after.outcomes == s.outcomes && after.sending == s.sending
      && after.issued == s.issued && after.handlings == s.handlings
  {
  }

  lemma HandlingStepTrue(server: Server, s: System, outcome: HandlerOutcome)
    requires Enabled(s, ServerHandles(outcome)) && OutcomesTrue(s)
    ensures OutcomesTrue(Next(server, s, ServerHandles(outcome)))
  {
    GenuineKept(s.handlings, Next(server, s, ServerHandles(outcome)).handlings[|s.handlings|]);
  }

  ghost predicate Inv(s: System) {
    OneCopyEach(s) && RepliesGenuine(s) && HolderOwns(s) && OutcomesTrue(s)
  }

  lemma InvKept(server: Server, s: System, a: Action)
    requires Inv(s) && Enabled(s, a)
    ensures Inv(Next(server, s, a))
  {
    OneCopyKept(server, s, a);
    RepliesStayGenuine(server, s, a);
    HolderStillOwns(server, s, a);
    OutcomesStayTrue(server, s, a);
  }

  lemma {:induction false} InvAlways(server: Server, s: System, actions: seq<Action>)
    requires Inv(s) && Behaviour(server, s, actions)
    ensures Inv(After(server, s, actions))
    decreases |actions|
  {
    if actions != [] {
      InvKept(server, s, actions[0]);
      InvAlways(server, Next(server, s, actions[0]), actions[1..]);
    }
  }

  lemma StartHolds()
    ensures Inv(Start)
  {
  }

  // ---------------------------------------------------------------------------
  // What callers may rely on
  // ---------------------------------------------------------------------------

  /** The times the server handled, and the times a handler ran for, the request with this id. */
  function HandlingsOf(hs: seq<Handling>, id: string): seq<Handling> {
    if hs == [] then []
    else
      HandlingsOf(hs[..|hs| - 1], id) + if hs[|hs| - 1].id == id then [hs[|hs| - 1]] else []
  }

  lemma {:induction false} HandlingsCounted(hs: seq<Handling>, id: string)
    ensures |HandlingsOf(hs, id)| == CopiesHandled(hs, id)
    ensures forall h :: h in hs && h.id == id ==> h in HandlingsOf(hs, id)
    ensures forall h :: h in HandlingsOf(hs, id) ==> h in hs && h.id == id
  {
    if hs != [] {
      var init := hs[..|hs| - 1];
      HandlingsCounted(init, id);
      assert hs == init + [hs[|hs| - 1]];
    }
  }

  /** A genuine reply to an id comes from the single, honest handling of that id. */
  lemma SingleHandling(s: System, id: string, body: Body)
    requires OneCopyEach(s) && RepliesGenuine(s) && Genuine(s.handlings, Response(String(id), body))
    ensures exists h ::
      HandlingsOf(s.handlings, id) == [h] && HonestHandling(h) && h.response == Some(Response(String(id), body))
  {
    HandlingsCounted(s.handlings, id);
    assert Tokens(s, id) <= 1;
    var i :| 0 <= i < |s.handlings| && s.handlings[i].response == Some(Response(String(id), body));
    var h := s.handlings[i];
    assert HonestHandling(h);
    assert h in s.handlings && h in HandlingsOf(s.handlings, id);
    assert HandlingsOf(s.handlings, id) == [h];
  }

  /** What a caller may conclude from the outcome of a call. */
  ghost predicate AnswerExact(hs: seq<Handling>, id: string, outcome: Outcome) {
    && !outcome.BufferFull?
    && (outcome.Returned? ==> exists h ::
          HandlingsOf(hs, id) == [h] && h.invoked && h.outcome == Returns(outcome.result))
    && (outcome.Failed? ==> exists h ::
          && HandlingsOf(hs, id) == [h]
          && (h.invoked <==> outcome.code == -32000) && (h.invoked ==> h.outcome.Raises?))
  }

  lemma AnswersExact(s: System, id: string)
    requires Inv(s)
    ensures |HandlingsOf(s.handlings, id)| <= 1
    ensures id in s.outcomes ==> AnswerExact(s.handlings, id, s.outcomes[id])
  {
    HandlingsCounted(s.handlings, id);
    assert Tokens(s, id) <= 1;
    if id in s.outcomes && s.outcomes[id].Returned? {
      SingleHandling(s, id, Result(s.outcomes[id].result));
    } else if id in s.outcomes && s.outcomes[id].Failed? {
      SingleHandling(s, id, Error(s.outcomes[id].code));
    }
  }

  /**
   Over every interleaving of timeouts, losses and late or duplicate replies: a call that
   returned was handled exactly once, by a handler run that returned that result; one that
   failed got the error of its own single handling; any other outcome, a timeout included,
   means it was handled at most once, also later on. The send buffer is never found full, and
   is empty whenever the lock is free.
   */
  lemma RpcIsExact(server: Server, actions: seq<Action>, id: string)
    requires Behaviour(server, Start, actions)
    ensures var s := After(server, Start, actions);
      && (s.sending.Unlocked? ==> s.buffer.None?)
      && |HandlingsOf(s.handlings, id)| <= 1
      && (id in s.outcomes ==> AnswerExact(s.handlings, id, s.outcomes[id]))
  {
    StartHolds();
    InvAlways(server, Start, actions);
    AnswersExact(After(server, Start, actions), id);
  }
}
