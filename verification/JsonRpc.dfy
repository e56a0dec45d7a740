/**
 The server half of the pipe RPC protocol (queueserver_service/common/json_rpc.py).

 A handler may do anything; what it does when a message invokes it is a parameter.
 */
module JsonRpc {
  import opened Models

  datatype Json =
    | Null
    | Bool(flag: bool)
    | Number(value: int)
    | String(text: string)
    | Array(items: seq<Json>)
    | Object(fields: map<string, Json>)

  datatype HandlerOutcome = Returns(result: Json) | Raises

  datatype Body = Result(result: Json) | Error(code: int)

  datatype Response = Response(id: Json, body: Body)

  /** Registered methods, and which parameters `inspect.getcallargs` accepts for them. */
  datatype Server = Server(methods: set<string>, accepts: (string, Json) -> bool)

  /** What handling one message does: reply or not, and whether a handler ran. */
  datatype Handled = Handled(response: Option<Response>, invoked: bool) | Uncaught

  predicate IsScalar(msg: Json) {
    msg.Null? || msg.Bool? || msg.Number?
  }

  predicate Contains(text: string, part: string) {
    exists i :: 0 <= i <= |text| && part <= text[i..]
  }

  /** Python's `"id" in msg`, which raises on a scalar. */
  predicate HasId(msg: Json)
    requires !IsScalar(msg)
  {
    match msg
    case String(text) => Contains(text, "id")
    case Array(items) => String("id") in items
    case Object(fields) => "id" in fields
  }

  predicate WellFormedCall(msg: Json) {
    msg.Object? && "method" in msg.fields && "jsonrpc" in msg.fields && msg.fields["jsonrpc"] == String("2.0")
  }

  /** The request id as far as it has been read when an error is reported. */
  function ReadId(msg: Json): Json {
    if WellFormedCall(msg) && "id" in msg.fields then msg.fields["id"] else Null
  }

  function Params(msg: Json): Json
    requires WellFormedCall(msg)
  {
    if "params" in msg.fields then msg.fields["params"] else Object(map[])
  }

  /** The error found before a handler is invoked, if any; a method that is no key has code 0. */
  function Refusal(server: Server, msg: Json): Option<int> {
    if !WellFormedCall(msg) then Some(-32600)
    else
      var call := msg.fields["method"];
      var args := Params(msg);
      if !args.Array? && !args.Object? then Some(-32602)
      else if call.Array? || call.Object? then Some(0)
      else if !call.String? || call.text !in server.methods then Some(-32601)
      else if !server.accepts(call.text, args) then Some(-32602)
      else None
  }

  /** `_handle_single_msg`; the id test precedes the try block, so a scalar is uncaught. */
  function HandleSingle(server: Server, msg: Json, outcome: HandlerOutcome): Handled {
    if IsScalar(msg) then Uncaught
    else
      var refusal := Refusal(server, msg);
      var body := if refusal.Some? then Error(refusal.value)
                  else if outcome.Returns? then Result(outcome.result)
                  else Error(-32000);
      Handled(if HasId(msg) then Some(Response(ReadId(msg), body)) else None, refusal.None?)
  }

  // ---------------------------------------------------------------------------
  // Single messages
  // ---------------------------------------------------------------------------

  /** A notification is never answered, whatever happens to it. */
  lemma NotificationUnanswered(server: Server, msg: Json, outcome: HandlerOutcome)
    requires msg.Object? && "id" !in msg.fields
    ensures HandleSingle(server, msg, outcome).Handled? && HandleSingle(server, msg, outcome).response.None?
  {
  }

  /**
   A well-formed request is answered under its own id, with a result exactly when a handler ran
   and returned it; server error -32000 exactly when a handler ran and raised.
   */
  lemma RequestAnswered(server: Server, msg: Json, outcome: HandlerOutcome)
    requires WellFormedCall(msg) && "id" in msg.fields
    ensures var handled := HandleSingle(server, msg, outcome);
      && handled.Handled? && handled.response.Some?
      && handled.response.value.id == msg.fields["id"]
      && (handled.response.value.body.Result? <==> handled.invoked && outcome.Returns?)
      && (handled.response.value.body.Result? ==> handled.response.value.body.result == outcome.result)
      && (handled.response.value.body == Error(-32000) <==> handled.invoked && outcome.Raises?)
  {
  }

  predicate IsContainer(params: Json) {
    params.Array? || params.Object?
  }

  /** The standard codes: invalid parameters, unknown method, invalid request; 0 for a method that is a container. */
  lemma RefusalsCoded(server: Server, msg: Json, outcome: HandlerOutcome)
    requires !IsScalar(msg) && HasId(msg)
    ensures var handled := HandleSingle(server, msg, outcome);
      && handled.Handled? && handled.response.Some?
      && (handled.invoked ==>
            WellFormedCall(msg) && msg.fields["method"].String? && msg.fields["method"].text in server.methods)
      && var body := handled.response.value.body;
      && (body == Error(-32600) <==> !WellFormedCall(msg))
      && (!WellFormedCall(msg) ==> handled.response.value.id == Null && !handled.invoked)
      && (WellFormedCall(msg) ==>
            var known := msg.fields["method"].String? && msg.fields["method"].text in server.methods;
            && (body == Error(-32601) <==> IsContainer(Params(msg)) && !known && !IsContainer(msg.fields["method"]))
            && (body == Error(0) <==> IsContainer(Params(msg)) && IsContainer(msg.fields["method"]))
            && (body == Error(-32602) <==> !IsContainer(Params(msg)) ||
                                           (known && !server.accepts(msg.fields["method"].text, Params(msg)))))
  {
  }

  /** The two letters stand in the text next to each other. */
  predicate SpellsId(text: string) {
    exists i :: 0 <= i < |text| - 1 && text[i] == 'i' && text[i + 1] == 'd'
  }

  /**
   An ill-formed message gets one answer, an invalid request under a null id, exactly when it
   contains "id": as a key of an object, an element of a list, or anywhere in a text.
   */
  lemma IllFormedAnsweredIff(server: Server, msg: Json, outcome: HandlerOutcome)
    requires !IsScalar(msg) && !WellFormedCall(msg)
    ensures var named := (msg.Object? && "id" in msg.fields) || (msg.Array? && String("id") in msg.items) ||
                         (msg.String? && SpellsId(msg.text));
      HandleSingle(server, msg, outcome) ==
      Handled(if named then Some(Response(Null, Error(-32600))) else None, false)
  {
    if msg.String? {
      SpellsIff(msg.text);
    }
  }

  lemma SpellsIff(text: string)
    ensures Contains(text, "id") <==> SpellsId(text)
  {
    if i :| 0 <= i <= |text| && "id" <= text[i..] {
      assert text[i] == text[i..][0] && text[i + 1] == text[i..][1];
    }
    if i :| 0 <= i < |text| - 1 && text[i] == 'i' && text[i + 1] == 'd' {
      assert "id" <= text[i..];
    }
  }

  // ---------------------------------------------------------------------------
  // Batches
  // ---------------------------------------------------------------------------

  datatype Reply = NoReply | Single(response: Response) | Batch(responses: seq<Response>)

  const ParseError := Single(Response(Null, Error(-32700)))

  /** Messages are handled in order up to the first uncaught one. */
  function HandleUpTo(server: Server, msgs: seq<Json>, outcomes: seq<HandlerOutcome>): (seq<Response>, seq<bool>)
    requires |msgs| == |outcomes|
  {
    if msgs == [] then ([], [])
    else
      var last := |msgs| - 1;
      var (responses, invoked) := HandleUpTo(server, msgs[..last], outcomes[..last]);
      var handled := HandleSingle(server, msgs[last], outcomes[last]);
      if handled.Uncaught? then (responses, invoked + [false])
      else (responses + (if handled.response.Some? then [handled.response.value] else []), invoked + [handled.invoked])
  }

  lemma HandleOneMore(server: Server, msgs: seq<Json>, outcomes: seq<HandlerOutcome>, msg: Json,
      outcome: HandlerOutcome)
    requires |msgs| == |outcomes|
    ensures var (responses, invoked) := HandleUpTo(server, msgs, outcomes);
      HandleUpTo(server, msgs + [msg], outcomes + [outcome]) ==
      match HandleSingle(server, msg, outcome)
      case Uncaught => (responses, invoked + [false])
      case Handled(response, ran) => (responses + (if response.Some? then [response.value] else []), invoked + [ran])
  {
    assert (msgs + [msg])[..|msgs|] == msgs && (outcomes + [outcome])[..|outcomes|] == outcomes;
  }

  function Wrapped(responses: seq<Response>, isBatch: bool): Reply {
    if responses == [] then NoReply else if isBatch then Batch(responses) else Single(responses[0])
  }

  /** Responses kept by a reply, in order. */
  function Kept(reply: Reply): seq<Response> {
    match reply
    case NoReply => []
    case Single(response) => [response]
    case Batch(responses) => responses
  }

  /** Wrapping keeps every response; a batch stays a batch, and nothing is sent when there is none. */
  lemma WrappedKeeps(responses: seq<Response>, isBatch: bool)
    requires !isBatch ==> |responses| <= 1
    ensures Kept(Wrapped(responses, isBatch)) == responses
    ensures Wrapped(responses, isBatch).NoReply? <==> responses == []
    ensures Wrapped(responses, isBatch).Batch? <==> isBatch && responses != []
  {
  }

  /** The loop over a batch; it stops at the first message that raises. */
  method HandleAll(server: Server, msgs: seq<Json>, outcomes: seq<HandlerOutcome>)
    returns (responses: seq<Response>, handled: nat, ghost invoked: seq<bool>)
    requires |msgs| == |outcomes|
    ensures handled <= |msgs| && (responses, invoked) == HandleUpTo(server, msgs[..handled], outcomes[..handled])
    ensures handled < |msgs| ==> IsScalar(msgs[handled])
    ensures forall i :: 0 <= i < handled ==> !IsScalar(msgs[i])
  {
    responses, invoked := [], [];
    for i := 0 to |msgs|
      invariant (responses, invoked) == HandleUpTo(server, msgs[..i], outcomes[..i])
      invariant forall k :: 0 <= k < i ==> !IsScalar(msgs[k])
    {
      var single := HandleSingle(server, msgs[i], outcomes[i]);
      if single.Uncaught? {
        return responses, i, invoked;
      }
      assert msgs[..i + 1] == msgs[..i] + [msgs[i]] && outcomes[..i + 1] == outcomes[..i] + [outcomes[i]];
      HandleOneMore(server, msgs[..i], outcomes[..i], msgs[i], outcomes[i]);
      responses := responses + (if single.response.Some? then [single.response.value] else []);
      invoked := invoked + [single.invoked];
    }
    handled := |msgs|;
  }

  /** `handle` for a decoded message: a list is a batch, and any uncaught error replaces all replies. */
  method Handle(server: Server, msg: Json, outcomes: seq<HandlerOutcome>) returns (reply: Reply)
    requires |outcomes| == if msg.Array? then |msg.items| else 1
    ensures var msgs := if msg.Array? then msg.items else [msg];
      reply == if exists i :: 0 <= i < |msgs| && IsScalar(msgs[i]) then ParseError
               else Wrapped(HandleUpTo(server, msgs, outcomes).0, msg.Array?)
  {
    var msgs := if msg.Array? then msg.items else [msg];
    var responses, handled, invoked := HandleAll(server, msgs, outcomes);
    if handled < |msgs| {
      return ParseError;
    }
    assert msgs[..handled] == msgs && outcomes[..handled] == outcomes;
    return Wrapped(responses, msg.Array?);
  }

  predicate Answered(msg: Json) {
    !IsScalar(msg) && HasId(msg)
  }

  function CountAnswered(msgs: seq<Json>): nat {
    if msgs == [] then 0
    else CountAnswered(msgs[..|msgs| - 1]) + if Answered(msgs[|msgs| - 1]) then 1 else 0
  }

  /** Exactly the messages with an id are answered, one response each, in order. */
  lemma {:induction false} BatchAnswersRequests(server: Server, msgs: seq<Json>, outcomes: seq<HandlerOutcome>)
    requires |msgs| == |outcomes|
    ensures var responses := HandleUpTo(server, msgs, outcomes).0;
      && |responses| == CountAnswered(msgs)
      && forall i :: 0 <= i < |msgs| && Answered(msgs[i]) ==>
           && CountAnswered(msgs[..i]) < |responses|
           && Some(responses[CountAnswered(msgs[..i])]) == HandleSingle(server, msgs[i], outcomes[i]).response
  {
    if msgs != [] {
      var last := |msgs| - 1;
      BatchAnswersRequests(server, msgs[..last], outcomes[..last]);
      forall i | 0 <= i < |msgs| && Answered(msgs[i])
        ensures var responses := HandleUpTo(server, msgs, outcomes).0;
          && CountAnswered(msgs[..i]) < |responses|
          && Some(responses[CountAnswered(msgs[..i])]) == HandleSingle(server, msgs[i], outcomes[i]).response
      {
        if i < last {
          assert msgs[..last][..i] == msgs[..i];
        }
      }
    }
  }

  /**
   In the replies of a batch, the reply of each well-formed request carries its own id and says
   what became of it: its result, the failure of its handler, an unknown method or invalid
   parameters. Any other answered message gets the code of an invalid request.
   */
  lemma BatchRepliesSay(server: Server, msgs: seq<Json>, outcomes: seq<HandlerOutcome>, i: nat)
    requires |msgs| == |outcomes| && i < |msgs| && Answered(msgs[i])
    ensures CountAnswered(msgs[..i]) < |HandleUpTo(server, msgs, outcomes).0|
    ensures var reply := HandleUpTo(server, msgs, outcomes).0[CountAnswered(msgs[..i])];
      && (reply.body == Error(-32600) <==> !WellFormedCall(msgs[i]))
      && (WellFormedCall(msgs[i]) ==>
            var ran := HandleSingle(server, msgs[i], outcomes[i]).invoked;
            && reply.id == msgs[i].fields["id"]
            && (reply.body.Result? <==> ran && outcomes[i].Returns?)
            && (reply.body == Error(-32000) <==> ran && outcomes[i].Raises?)
            && (reply.body == Error(-32601) ==> !ran) && (reply.body == Error(-32602) ==> !ran))
  {
    BatchAnswersRequests(server, msgs, outcomes);
    RefusalsCoded(server, msgs[i], outcomes[i]);
    if WellFormedCall(msgs[i]) {
      RequestAnswered(server, msgs[i], outcomes[i]);
    }
  }

  /** What `handle` sends back for a message without scalars keeps the reply of every request, in order. */
  lemma RepliesAreSent(server: Server, msg: Json, outcomes: seq<HandlerOutcome>)
    requires |outcomes| == if msg.Array? then |msg.items| else 1
    ensures var msgs := if msg.Array? then msg.items else [msg];
      Kept(Wrapped(HandleUpTo(server, msgs, outcomes).0, msg.Array?)) == HandleUpTo(server, msgs, outcomes).0
  {
    var msgs := if msg.Array? then msg.items else [msg];
    BatchAnswersRequests(server, msgs, outcomes);
    if !msg.Array? {
      assert msgs[..0] == [];
    }
    WrappedKeeps(HandleUpTo(server, msgs, outcomes).0, msg.Array?);
  }

  /**
   A batch with an element that is no object, list or text loses every reply: the caller gets
   one parse error under a null id even though the calls before that element have run.
   */
  lemma ScalarLosesReplies(server: Server, call: Json, scalar: Json, outcome: HandlerOutcome, result: Json)
    requires WellFormedCall(call) && "id" in call.fields && Refusal(server, call).None?
    requires IsScalar(scalar) && outcome == Returns(result)
    ensures HandleUpTo(server, [call], [outcome]) == ([Response(call.fields["id"], Result(result))], [true])
    ensures HandleSingle(server, scalar, outcome).Uncaught?
  {
    RequestAnswered(server, call, outcome);
    assert [call][..0] == [] && [outcome][..0] == [];
    assert [] + [Response(call.fields["id"], Result(result))] == [Response(call.fields["id"], Result(result))];
    assert [] + [true] == [true];
    assert HandleSingle(server, call, outcome) == Handled(Some(Response(call.fields["id"], Result(result))), true);
  }
}
