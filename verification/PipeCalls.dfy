/**
 What a caller gets from the pipe RPC when its message and its reply arrive in time
 (queueserver_service/common/comms.py PipeJsonRpcSendAsync and PipeJsonRpcReceive).
 */
module PipeCalls {
  import opened Models
  import opened JsonRpc
  import opened PipeRpc

  /** The message names the method, carries the parameters or none, and an id unless it is a notification. */
  lemma FormatSays(r: Request)
    ensures var msg := FormatMsg(r);
      && WellFormedCall(msg) && msg.fields["method"] == String(r.call)
      && (r.params.Some? ==> Params(msg) == r.params.value) && (r.params.None? ==> Params(msg) == Object(map[]))
      && ("id" in msg.fields <==> !r.notification) && (!r.notification ==> msg.fields["id"] == String(r.id))
  {
  }

  // ---------------------------------------------------------------------------
  // A reply in time
  // ---------------------------------------------------------------------------

  /** A call that waits is still waiting for a reply under its id, or already has one. */
  predicate Waits(s: System) {
    && (s.sending.AwaitReply? ==> !s.sending.r.notification)
    && ((s.sending.AwaitSend? || s.sending.AwaitReply?) && !s.sending.r.notification ==>
          (s.future.Pending? && s.expected == Some(s.sending.r.id)) || s.future.Done?)
  }

  lemma WaitsKept(server: Server, s: System, a: Action)
    requires Enabled(s, a) && HolderOwns(s) && Waits(s)
    ensures Waits(Next(server, s, a))
  {
  }

  lemma {:induction false} WaitsAlways(server: Server, s: System, actions: seq<Action>)
    requires Inv(s) && Waits(s) && Behaviour(server, s, actions)
    ensures Waits(After(server, s, actions))
    decreases |actions|
  {
    if actions != [] {
      InvKept(server, s, actions[0]);
      WaitsKept(server, s, actions[0]);
      WaitsAlways(server, Next(server, s, actions[0]), actions[1..]);
    }
  }

  /** How a reply ends a call. */
  function OutcomeOf(body: Body): Outcome {
    match body
    case Result(result) => Returned(result)
    case Error(code) => Failed(code)
  }

  /** Two genuine replies to one id are the same. */
  lemma SameReply(s: System, id: string, a: Response, b: Response)
    requires Inv(s) && Genuine(s.handlings, a) && Genuine(s.handlings, b)
    requires a.id == String(id) && b.id == String(id)
    ensures a == b
  {
    assert a == Response(String(id), a.body) && b == Response(String(id), b.body);
    SingleHandling(s, id, a.body);
    SingleHandling(s, id, b.body);
  }

  /** The callback has run and the waiter has woken, before the cleanup. */
  ghost predicate EndsWith(server: Server, s: System, i: nat, outcome: Outcome) {
    && Enabled(s, TaskRuns(i))
    && var s1 := Next(server, s, TaskRuns(i));
    && Enabled(s1, ReplyDone)
    && var s2 := Next(server, s1, ReplyDone);
    && Enabled(s2, Leave)
    && var s3 := Next(server, s2, Leave);
    && s3.outcomes == s.outcomes[s.sending.r.id := outcome] && s3.sending.Unlocked?
  }

  lemma ReplyEndsCall(server: Server, s: System, i: nat)
    requires s.sending.AwaitReply? && i < |s.tasks| && s.tasks[i].id == String(s.sending.r.id)
    requires (s.future.Pending? && s.expected == Some(s.sending.r.id)) || s.future == Done(s.tasks[i])
    ensures EndsWith(server, s, i, OutcomeOf(s.tasks[i].body))
  {
    var s1 := Next(server, s, TaskRuns(i));
    assert s1.future == Done(s.tasks[i]) && s1.sending == s.sending && s1.outcomes == s.outcomes;
  }

  /**
   In every reachable state in which a call waits for its reply and that reply has reached the
   client, running the callback, the waiter and the cleanup ends the call with what the reply says.
   */
  lemma TimelyReplyEndsCall(server: Server, actions: seq<Action>, i: nat)
    requires Behaviour(server, Start, actions)
    requires var s := After(server, Start, actions);
      s.sending.AwaitReply? && i < |s.tasks| && s.tasks[i].id == String(s.sending.r.id)
    ensures var s := After(server, Start, actions);
      EndsWith(server, s, i, OutcomeOf(s.tasks[i].body))
  {
    StartHolds();
    InvAlways(server, Start, actions);
    WaitsAlways(server, Start, actions);
    WaitingReplyEndsCall(server, After(server, Start, actions), i);
  }

  lemma WaitingReplyEndsCall(server: Server, s: System, i: nat)
    requires Inv(s) && Waits(s)
    requires s.sending.AwaitReply? && i < |s.tasks| && s.tasks[i].id == String(s.sending.r.id)
    ensures EndsWith(server, s, i, OutcomeOf(s.tasks[i].body))
  {
    assert Genuine(s.handlings, s.tasks[i]);
    if s.future.Done? {
      SameReply(s, s.sending.r.id, s.tasks[i], s.future.response);
    }
    ReplyEndsCall(server, s, i);
  }

  /** A reply under another id changes nothing for the call that waits. */
  lemma OtherReplyIgnored(server: Server, s: System, i: nat)
    requires Enabled(s, TaskRuns(i)) && s.expected.Some? && s.tasks[i].id != String(s.expected.value)
    ensures Next(server, s, TaskRuns(i)) == s.(tasks := DropAt(s.tasks, i))
  {
  }

  // ---------------------------------------------------------------------------
  // A whole call
  // ---------------------------------------------------------------------------

  /** Nobody calls and nothing is on its way. */
  predicate Quiet(s: System) {
    && s.sending.Unlocked? && s.buffer.None? && s.outbox.None? && s.acks == [] && s.toServer == [] && s.inbox == []
    && s.replying.None? && s.toClient == [] && s.tasks == []
  }

  lemma OneStep(server: Server, s: System, a: Action, rest: seq<Action>)
    requires Enabled(s, a) && Behaviour(server, Next(server, s, a), rest)
    ensures Behaviour(server, s, [a] + rest)
    ensures After(server, s, [a] + rest) == After(server, Next(server, s, a), rest)
  {
    assert ([a] + rest)[0] == a && ([a] + rest)[1..] == rest;
  }

  lemma {:induction false} Joined(server: Server, s: System, first: seq<Action>, second: seq<Action>)
    requires Behaviour(server, s, first) && Behaviour(server, After(server, s, first), second)
    ensures Behaviour(server, s, first + second)
    ensures After(server, s, first + second) == After(server, After(server, s, first), second)
    decreases |first|
  {
    if first == [] {
      assert first + second == second;
    } else {
      Joined(server, Next(server, s, first[0]), first[1..], second);
      FirstOfJoined(first, second);
    }
  }

  function Send(r: Request): seq<Action> {
    [Call(r), TakeFromBuffer, PipeSend, AckRuns(0), SendDone]
  }

  lemma Sends(server: Server, s: System, r: Request)
    requires Quiet(s) && r.id !in s.issued
    ensures Behaviour(server, s, Send(r))
    ensures After(server, s, Send(r)) ==
            s.(sending := if r.notification then Leaving(r, Sent) else AwaitReply(r),
               expected := if r.notification then None else Some(r.id),
               future := if r.notification then NoFuture else Pending, sent := true,
               toServer := [r], issued := s.issued + {r.id})
  {
    var s1 := Next(server, s, Call(r));
    var s2 := Next(server, s1, TakeFromBuffer);
    var s3 := Next(server, s2, PipeSend);
    assert s3.acks == [r.id] && s3.toServer == [r] && DropAt(s3.acks, 0) == [];
    var s4 := Next(server, s3, AckRuns(0));
    OneStep(server, s4, SendDone, []);
    OneStep(server, s3, AckRuns(0), [SendDone]);
    OneStep(server, s2, PipeSend, [AckRuns(0), SendDone]);
    OneStep(server, s1, TakeFromBuffer, [PipeSend, AckRuns(0), SendDone]);
    OneStep(server, s, Call(r), [TakeFromBuffer, PipeSend, AckRuns(0), SendDone]);
    assert [SendDone] + [] == [SendDone] && [AckRuns(0)] + [SendDone] == [AckRuns(0), SendDone];
    assert [PipeSend] + [AckRuns(0), SendDone] == [PipeSend, AckRuns(0), SendDone];
    assert [TakeFromBuffer] + [PipeSend, AckRuns(0), SendDone] == [TakeFromBuffer, PipeSend, AckRuns(0), SendDone];
    assert [Call(r)] + [TakeFromBuffer, PipeSend, AckRuns(0), SendDone] == Send(r);
  }

  function Serve(outcome: HandlerOutcome): seq<Action> {
    [ServerReceives, ServerHandles(outcome), ServerReplies, ClientReceives]
  }

  lemma Serves(server: Server, s: System, r: Request, outcome: HandlerOutcome)
    requires s.toServer == [r] && s.inbox == [] && s.replying.None? && s.toClient == [] && s.tasks == []
    requires !r.notification
    ensures Behaviour(server, s, Serve(outcome))
    ensures HandleSingle(server, FormatMsg(r), outcome).Handled?
    ensures HandleSingle(server, FormatMsg(r), outcome).response.Some?
    ensures var after := After(server, s, Serve(outcome));
      && after.sending == s.sending && after.expected == s.expected && after.future == s.future
      && after.outcomes == s.outcomes
      && after.tasks == [HandleSingle(server, FormatMsg(r), outcome).response.value]
  {
    HandledHonestly(server, r, outcome);
    var s1 := Next(server, s, ServerReceives);
    assert s1.inbox == [r];
    var s2 := Next(server, s1, ServerHandles(outcome));
    var s3 := Next(server, s2, ServerReplies);
    OneStep(server, s3, ClientReceives, []);
    OneStep(server, s2, ServerReplies, [ClientReceives]);
    OneStep(server, s1, ServerHandles(outcome), [ServerReplies, ClientReceives]);
    OneStep(server, s, ServerReceives, [ServerHandles(outcome), ServerReplies, ClientReceives]);
    assert [ClientReceives] + [] == [ClientReceives];
    assert [ServerReplies] + [ClientReceives] == [ServerReplies, ClientReceives];
    assert [ServerHandles(outcome)] + [ServerReplies, ClientReceives] ==
           [ServerHandles(outcome), ServerReplies, ClientReceives];
    assert [ServerReceives] + [ServerHandles(outcome), ServerReplies, ClientReceives] == Serve(outcome);
  }

  const Finish := [TaskRuns(0), ReplyDone, Leave]

  lemma Finishes(server: Server, s: System, r: Request)
    requires s.sending == AwaitReply(r) && s.expected == Some(r.id) && s.future.Pending?
    requires |s.tasks| == 1 && s.tasks[0].id == String(r.id)
    ensures Behaviour(server, s, Finish)
    ensures After(server, s, Finish).outcomes == s.outcomes[r.id := OutcomeOf(s.tasks[0].body)]
  {
    var s1 := Next(server, s, TaskRuns(0));
    var s2 := Next(server, s1, ReplyDone);
    OneStep(server, s2, Leave, []);
    OneStep(server, s1, ReplyDone, [Leave]);
    OneStep(server, s, TaskRuns(0), [ReplyDone, Leave]);
    assert [Leave] + [] == [Leave] && [ReplyDone] + [Leave] == [ReplyDone, Leave];
    assert [TaskRuns(0)] + [ReplyDone, Leave] == Finish;
  }

  /**
   A call from a quiet state with nothing lost and nothing late: the caller gets the result of its
   handler, or the server error when the handler raised, or the code of the refusal.
   */
  lemma CallIsAnswered(server: Server, s: System, r: Request, outcome: HandlerOutcome)
    requires Quiet(s) && r.id !in s.issued && !r.notification
    ensures Behaviour(server, s, Send(r) + Serve(outcome) + Finish)
    ensures var refusal := Refusal(server, FormatMsg(r));
      After(server, s, Send(r) + Serve(outcome) + Finish).outcomes ==
      s.outcomes[r.id := if refusal.Some? then Failed(refusal.value)
                         else if outcome.Raises? then Failed(-32000) else Returned(outcome.result)]
  {
    Sends(server, s, r);
    var s1 := After(server, s, Send(r));
    Serves(server, s1, r, outcome);
    Joined(server, s, Send(r), Serve(outcome));
    FormatSays(r);
    RequestAnswered(server, FormatMsg(r), outcome);
    Finishes(server, After(server, s1, Serve(outcome)), r);
    Joined(server, s, Send(r) + Serve(outcome), Finish);
  }

  // ---------------------------------------------------------------------------
  // Without a reply
  // ---------------------------------------------------------------------------

  /** A notification ends when it is sent, without waiting for the server. */
  lemma NotificationIsSent(server: Server, s: System, r: Request)
    requires Quiet(s) && r.id !in s.issued && r.notification
    ensures Behaviour(server, s, Send(r) + [Leave])
    ensures After(server, s, Send(r) + [Leave]) ==
            s.(toServer := [r], issued := s.issued + {r.id}, outcomes := s.outcomes[r.id := Sent], sent := true,
               expected := None, future := NoFuture)
  {
    Sends(server, s, r);
    var s1 := After(server, s, Send(r));
    OneStep(server, s1, Leave, []);
    assert [Leave] + [] == [Leave];
    Joined(server, s, Send(r), [Leave]);
  }

  /** A call that runs out of time, sending or waiting, is told so, and the client is ready for the next one. */
  lemma TimeoutIsTold(server: Server, s: System, a: Action)
    requires a.SendTimesOut? || a.ReplyTimesOut?
    requires Enabled(s, a)
    ensures Enabled(Next(server, s, a), Leave)
    ensures var after := Next(server, Next(server, s, a), Leave);
      && after.sending.Unlocked? && after.buffer.None? && after.expected.None?
      && after.outcomes == s.outcomes[s.sending.r.id := TimedOut]
      && forall r: Request :: r.id !in s.issued ==> Enabled(after, Call(r))
  {
  }
}
