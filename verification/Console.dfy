/**
 The bounded console buffer polled with cursors
 (queueserver_service/http/console_output.py CollectPublishedConsoleOutput).

 Every message gets a fresh uid. A poll names the uid it has seen last and receives what the
 buffer holds after it.
 */
module Console {
  import opened Models

  /** A uuid, by its number. */
  type Uid = nat

  datatype Message = Message(uid: Uid, text: string)

  /** What a client sends: the text "ALL", or the uid it has seen last. */
  datatype Cursor = All | After(uid: Uid)

  /** The parallel lists and the uid reported with every poll. */
  datatype Buffer = Buffer(uids: seq<Uid>, texts: seq<string>, last: Uid)

  const MSG_BUFFER_MAX := 2000

  function Tail<T>(s: seq<T>, max: nat): seq<T> {
    if |s| <= max then s else s[|s| - max..]
  }

  function Pushed(b: Buffer, m: Message, max: nat): Buffer {
    Buffer(Tail(b.uids + [m.uid], max), Tail(b.texts + [m.text], max), m.uid)
  }

  /** `list.index`: the first position of `uid`. */
  function IndexOf(uids: seq<Uid>, uid: Uid): (index: Option<nat>)
    ensures index.Some? ==> index.value < |uids| && uids[index.value] == uid && uid !in uids[..index.value]
    ensures index.None? ==> uid !in uids
  {
    if uids == [] then None
    else if uids[0] == uid then Some(0)
    else
      var rest := IndexOf(uids[1..], uid);
      if rest.Some? then Some(rest.value + 1) else None
  }

  /** What a poll from `cursor` receives. */
  function Polled(b: Buffer, cursor: Cursor): seq<string>
    requires |b.uids| == |b.texts|
  {
    if cursor.All? then b.texts
    else
      var index := IndexOf(b.uids, cursor.uid);
      if index.Some? then b.texts[index.value + 1..] else []
  }

  class CollectPublishedConsoleOutput {
    var msgUidBuffer: seq<Uid>
    var msgBuffer: seq<string>
    var lastMsgUid: Uid
    const msgBufferMax: nat

    ghost predicate Valid()
      reads this
    {
      |msgUidBuffer| == |msgBuffer| <= msgBufferMax
    }

    function Model(): Buffer
      reads this
    {
      Buffer(msgUidBuffer, msgBuffer, lastMsgUid)
    }

    constructor (uid: Uid)
      ensures Valid() && Model() == Buffer([], [], uid) && msgBufferMax == MSG_BUFFER_MAX
    {
      msgUidBuffer, msgBuffer, lastMsgUid, msgBufferMax := [], [], uid, MSG_BUFFER_MAX;
    }

    method AddToMsgBuffer(text: string, uid: Uid)
      requires Valid()
      modifies this
      ensures Valid() && Model() == Pushed(old(Model()), Message(uid, text), msgBufferMax)
    {
      msgBuffer := msgBuffer + [text];
      msgUidBuffer := msgUidBuffer + [uid];
      lastMsgUid := uid;
      ghost var texts, uids := msgBuffer, msgUidBuffer;
      ghost var popped := 0;
      while |msgBuffer| > msgBufferMax
        invariant 0 <= popped <= |texts| == |uids|
        invariant popped == 0 || |texts| - popped >= msgBufferMax
        invariant msgBuffer == texts[popped..] && msgUidBuffer == uids[popped..]
        invariant lastMsgUid == uid
      {
        assert texts[popped..][1..] == texts[popped + 1..] && uids[popped..][1..] == uids[popped + 1..];
        msgBuffer := msgBuffer[1..];
        msgUidBuffer := msgUidBuffer[1..];
        popped := popped + 1;
      }
      assert msgBuffer == Tail(texts, msgBufferMax) && msgUidBuffer == Tail(uids, msgBufferMax);
    }

    method GetNewMsgs(cursor: Cursor) returns (last: Uid, texts: seq<string>)
      requires Valid()
      ensures last == lastMsgUid && texts == Polled(Model(), cursor)
    {
      texts := [];
      if cursor.All? {
        texts := msgBuffer;
      } else {
        var index := IndexOf(msgUidBuffer, cursor.uid);
        if index.Some? {
          texts := msgBuffer[index.value + 1..];
        }
      }
      last := lastMsgUid;
    }
  }

  // ---------------------------------------------------------------------------
  // The buffer against the whole stream
  // ---------------------------------------------------------------------------

  /** The buffer after the messages of a stream have been added to an empty one. */
  function Filled(first: Uid, stream: seq<Message>, max: nat): Buffer {
    if stream == [] then Buffer([], [], first)
    else Pushed(Filled(first, stream[..|stream| - 1], max), stream[|stream| - 1], max)
  }

  function Uids(stream: seq<Message>): seq<Uid> {
    seq(|stream|, i requires 0 <= i < |stream| => stream[i].uid)
  }

  function Texts(stream: seq<Message>): seq<string> {
    seq(|stream|, i requires 0 <= i < |stream| => stream[i].text)
  }

  /** The buffer holds exactly the last `max` messages of the stream. */
  lemma {:induction false} HoldsTail(first: Uid, stream: seq<Message>, max: nat)
    ensures Filled(first, stream, max).uids == Tail(Uids(stream), max)
    ensures Filled(first, stream, max).texts == Tail(Texts(stream), max)
    ensures Filled(first, stream, max).last == if stream == [] then first else stream[|stream| - 1].uid
  {
    if stream != [] {
      var init := stream[..|stream| - 1];
      HoldsTail(first, init, max);
      assert Uids(stream) == Uids(init) + [stream[|stream| - 1].uid];
      assert Texts(stream) == Texts(init) + [stream[|stream| - 1].text];
    }
  }

  /** The uids are distinct. */
  predicate FreshUids(stream: seq<Message>) {
    forall i, j :: 0 <= i < j < |stream| ==> stream[i].uid != stream[j].uid
  }

  function Held(stream: seq<Message>, max: nat): seq<Message> {
    Tail(stream, max)
  }

  /** So it is the buffer of those messages. */
  lemma FilledIsHeld(first: Uid, stream: seq<Message>, max: nat)
    ensures Filled(first, stream, max) ==
            Buffer(Uids(Held(stream, max)), Texts(Held(stream, max)), Filled(first, stream, max).last)
  {
    HoldsTail(first, stream, max);
    assert Tail(Uids(stream), max) == Uids(Held(stream, max));
    assert Tail(Texts(stream), max) == Texts(Held(stream, max));
  }

  /** Polling a buffer that holds exactly `held`, from one of its own messages. */
  lemma PollHeld(held: seq<Message>, last: Uid, k: nat)
    requires FreshUids(held) && k < |held|
    ensures Polled(Buffer(Uids(held), Texts(held), last), After(held[k].uid)) == Texts(held[k + 1..])
  {
    assert Uids(held)[k] == held[k].uid;
    var index := IndexOf(Uids(held), held[k].uid);
    assert index.Some? && Uids(held)[index.value] == held[index.value].uid;
    assert index.value == k;
    assert Texts(held)[k + 1..] == Texts(held[k + 1..]);
  }

  lemma PollKept(stream: seq<Message>, last: Uid, dropped: nat, k: nat)
    requires FreshUids(stream) && dropped <= k < |stream|
    ensures Polled(Buffer(Uids(stream[dropped..]), Texts(stream[dropped..]), last), After(stream[k].uid)) ==
            Texts(stream[k + 1..])
  {
    var held := stream[dropped..];
    PollHeld(held, last, k - dropped);
    assert held[k - dropped + 1..] == stream[k + 1..];
  }

  lemma PollLost(stream: seq<Message>, last: Uid, dropped: nat, k: nat)
    requires FreshUids(stream) && k < dropped <= |stream|
    ensures Polled(Buffer(Uids(stream[dropped..]), Texts(stream[dropped..]), last), After(stream[k].uid)) == []
  {
    var uids := Uids(stream[dropped..]);
    assert forall i :: 0 <= i < |uids| ==> uids[i] == stream[dropped + i].uid;
  }

  /**
   A poll from message `k` receives exactly the messages after it when fewer than the buffer
   maximum were added since, and nothing otherwise.
   */
  lemma PollFromMessage(first: Uid, stream: seq<Message>, max: nat, k: nat)
    requires FreshUids(stream) && k < |stream|
    ensures |Filled(first, stream, max).uids| == |Filled(first, stream, max).texts|
    ensures Polled(Filled(first, stream, max), After(stream[k].uid)) ==
            if |stream| - 1 - k < max then Texts(stream[k + 1..]) else []
  {
    FilledIsHeld(first, stream, max);
    var dropped := |stream| - |Held(stream, max)|;
    if k < dropped {
      PollLost(stream, Filled(first, stream, max).last, dropped, k);
    } else {
      PollKept(stream, Filled(first, stream, max).last, dropped, k);
    }
  }

  /** So the poll is complete exactly when fewer than the maximum were added since. */
  lemma PollCompleteIff(first: Uid, stream: seq<Message>, max: nat, k: nat)
    requires FreshUids(stream) && k < |stream| && max > 0
    ensures |Filled(first, stream, max).uids| == |Filled(first, stream, max).texts|
    ensures Polled(Filled(first, stream, max), After(stream[k].uid)) == Texts(stream[k + 1..]) <==>
            |stream| - 1 - k < max
  {
    PollFromMessage(first, stream, max, k);
    assert |Texts(stream[k + 1..])| == |stream| - 1 - k;
  }

  /** The poll made when `to` messages had arrived, from the uid reported when `from` had. */
  function PolledAt(first: Uid, stream: seq<Message>, max: nat, from: nat, to: nat): seq<string>
    requires from <= |stream| && to <= |stream|
  {
    HoldsTail(first, stream[..to], max);
    Polled(Filled(first, stream[..to], max), After(Filled(first, stream[..from], max).last))
  }

  predicate Within(lengths: seq<nat>, bound: nat) {
    forall i :: 0 <= i < |lengths| ==> lengths[i] <= bound
  }

  /** Each poll comes after the one before it, and fewer than `max` messages later. */
  predicate KeepsUp(lengths: seq<nat>, max: nat) {
    forall i :: 0 < i < |lengths| ==> lengths[i - 1] <= lengths[i] < lengths[i - 1] + max
  }

  /**
   Polls made when `lengths[0]`, `lengths[1]`, ... messages had arrived, each from the uid the
   poll before it reported, one list after the other.
   */
  function Chained(first: Uid, stream: seq<Message>, max: nat, lengths: seq<nat>): seq<string>
    requires Within(lengths, |stream|)
  {
    if |lengths| < 2 then []
    else
      var last := |lengths| - 1;
      Chained(first, stream, max, lengths[..last]) + PolledAt(first, stream, max, lengths[last - 1], lengths[last])
  }

  /** A chain of polls that keep up yields the stream with no gap and no duplicate. */
  lemma {:induction false} ChainIsGapless(first: Uid, stream: seq<Message>, max: nat, lengths: seq<nat>)
    requires FreshUids(stream) && lengths != [] && lengths[0] > 0
    requires Within(lengths, |stream|) && KeepsUp(lengths, max)
    ensures lengths[0] <= lengths[|lengths| - 1]
    ensures Chained(first, stream, max, lengths) == Texts(stream[lengths[0]..lengths[|lengths| - 1]])
  {
    if |lengths| >= 2 {
      var last := |lengths| - 1;
      var init := lengths[..last];
      var from, to := lengths[last - 1], lengths[last];
      assert KeepsUp(init, max);
      ChainIsGapless(first, stream, max, init);
      assert init[0] == lengths[0] && init[|init| - 1] == from;
      ChainLink(first, stream, max, from, to);
      TextsJoin(stream, lengths[0], from, to);
    }
  }

  lemma TextsJoin(stream: seq<Message>, i: nat, j: nat, k: nat)
    requires i <= j <= k <= |stream|
    ensures Texts(stream[i..k]) == Texts(stream[i..j]) + Texts(stream[j..k])
  {
  }

  /** One poll of a chain. */
  lemma ChainLink(first: Uid, stream: seq<Message>, max: nat, from: nat, to: nat)
    requires FreshUids(stream) && 0 < from <= to <= |stream| && to - from < max
    ensures PolledAt(first, stream, max, from, to) == Texts(stream[from..to])
  {
    LastUid(first, stream[..from], max);
    PollFromMessage(first, stream[..to], max, from - 1);
    assert stream[..to][from..] == stream[from..to];
  }

  lemma LastUid(first: Uid, stream: seq<Message>, max: nat)
    requires stream != []
    ensures Filled(first, stream, max).last == stream[|stream| - 1].uid
  {
  }

  /**
   A client starts with "ALL" once `lengths[0]` messages have arrived and then polls in a chain
   that keeps up: it receives the stream from the oldest message then held, and all of it
   exactly when no message had been dropped by then.
   */
  lemma AllThenChain(first: Uid, stream: seq<Message>, max: nat, lengths: seq<nat>)
    requires FreshUids(stream) && lengths != [] && lengths[0] > 0
    requires Within(lengths, |stream|) && KeepsUp(lengths, max)
    ensures lengths[0] <= lengths[|lengths| - 1]
    ensures |Filled(first, stream[..lengths[0]], max).uids| == |Filled(first, stream[..lengths[0]], max).texts|
    ensures var start := if lengths[0] <= max then 0 else lengths[0] - max;
            var all := Polled(Filled(first, stream[..lengths[0]], max), All);
            var received := all + Chained(first, stream, max, lengths);
            && received == Texts(stream[start..lengths[|lengths| - 1]])
            && (received == Texts(stream[..lengths[|lengths| - 1]]) <==> lengths[0] <= max)
  {
    var start := if lengths[0] <= max then 0 else lengths[0] - max;
    ChainIsGapless(first, stream, max, lengths);
    FilledIsHeld(first, stream[..lengths[0]], max);
    assert Held(stream[..lengths[0]], max) == stream[start..lengths[0]];
    TextsJoin(stream, start, lengths[0], lengths[|lengths| - 1]);
  }

  /**
   The uid reported before any message has arrived is no message's uid: a client that starts
   from it never receives the messages that came in between.
   */
  lemma EarlyCursorReceivesNothing(first: Uid, stream: seq<Message>, max: nat)
    requires forall i :: 0 <= i < |stream| ==> stream[i].uid != first
    ensures Filled(first, [], max).last == first
    ensures |Filled(first, stream, max).uids| == |Filled(first, stream, max).texts|
    ensures Polled(Filled(first, stream, max), After(first)) == []
  {
    HoldsTail(first, stream, max);
    assert first !in Filled(first, stream, max).uids;
  }
}
