/**
  What the listener promises about one poll tick, stated over its trace: how often and with
  what the handler is called, which deletes are issued and against which queue, in what
  order, and that neither the handler's nor the delete's answer changes any later call.
 */
module ListenerProperties {
  import opened Wrappers
  import opened SqsTypes
  import opened Trace
  import opened SqsListener

  /** The receipt handles present in a message list, in list order. */
  function Receipts(messages: seq<Message>): (receipts: seq<string>)
  {
    if messages == [] then []
    else
      (if messages[0].receiptHandle.Some? then [messages[0].receiptHandle.value] else [])
      + Receipts(messages[1..])
  }

  /** The deletes a response should cause: one per present receipt handle, against `queueUrl`. */
  function ExpectedDeletes(queueUrl: string, messages: seq<Message>)
    : (deletes: seq<DeleteMessageRequest>)
  {
    var receipts := Receipts(messages);
    seq(|receipts|, k requires 0 <= k < |receipts| => DeleteMessageRequest(queueUrl, receipts[k]))
  }

  /**
    `positions` picks out, in increasing order, exactly the messages that carry a receipt
    handle, and `receipts[k]` is the handle of the message at `positions[k]`.
   */
  ghost predicate SelectsReceipts(
    messages: seq<Message>, receipts: seq<string>, positions: seq<int>)
  {
    && |positions| == |receipts|
    && PicksReceipts(messages, receipts, positions)
    && Increasing(positions)
    && CoversReceipts(messages, positions)
  }

  ghost predicate PicksReceipts(messages: seq<Message>, receipts: seq<string>, positions: seq<int>)
    requires |positions| == |receipts|
  {
    forall k :: 0 <= k < |positions| ==>
      0 <= positions[k] < |messages| && messages[positions[k]].receiptHandle == Some(receipts[k])
  }

  ghost predicate Increasing(positions: seq<int>)
  {
    forall k, l :: 0 <= k < l < |positions| ==> positions[k] < positions[l]
  }

  ghost predicate CoversReceipts(messages: seq<Message>, positions: seq<int>)
  {
    forall j :: 0 <= j < |messages| && messages[j].receiptHandle.Some? ==> j in positions
  }

  /** Every position moved one place to the right. */
  function Shift(positions: seq<int>): (r: seq<int>)
  {
    seq(|positions|, k requires 0 <= k < |positions| => positions[k] + 1)
  }

  /** Prepending a message without a receipt handle shifts every selected position by one. */
  lemma SelectsSkip(m: Message, tail: seq<Message>, receipts: seq<string>, positions: seq<int>)
    requires SelectsReceipts(tail, receipts, positions)
    requires m.receiptHandle.None?
    ensures SelectsReceipts([m] + tail, receipts, Shift(positions))
  {
    var messages := [m] + tail;
    var shifted := Shift(positions);
    forall j | 0 <= j < |messages| && messages[j].receiptHandle.Some?
      ensures j in shifted
    {
      assert messages[j] == tail[j - 1];
      var k :| 0 <= k < |positions| && positions[k] == j - 1;
      assert shifted[k] == j;
    }
    assert CoversReceipts(messages, shifted);
    forall k | 0 <= k < |shifted|
      ensures 0 <= shifted[k] < |messages|
      ensures messages[shifted[k]].receiptHandle == Some(receipts[k])
    {
      assert messages[shifted[k]] == tail[positions[k]];
    }
    assert PicksReceipts(messages, receipts, shifted);
  }

  /** Prepending a message with a receipt handle selects it first, then the shifted rest. */
  lemma SelectsTake(m: Message, tail: seq<Message>, receipts: seq<string>, positions: seq<int>)
    requires SelectsReceipts(tail, receipts, positions)
    requires m.receiptHandle.Some?
    ensures SelectsReceipts([m] + tail, [m.receiptHandle.value] + receipts, [0] + Shift(positions))
  {
    var messages := [m] + tail;
    var shifted := Shift(positions);
    var taken := [0] + shifted;
    var rs := [m.receiptHandle.value] + receipts;
    forall j | 0 <= j < |messages| && messages[j].receiptHandle.Some?
      ensures j in taken
    {
      if j > 0 {
        assert messages[j] == tail[j - 1];
        var k :| 0 <= k < |positions| && positions[k] == j - 1;
        assert taken[k + 1] == j;
      }
    }
    assert CoversReceipts(messages, taken);
    forall k | 0 <= k < |taken|
      ensures 0 <= taken[k] < |messages| && messages[taken[k]].receiptHandle == Some(rs[k])
    {
      if k > 0 {
        assert taken[k] == shifted[k - 1];
        assert messages[taken[k]] == tail[positions[k - 1]];
        assert rs[k] == receipts[k - 1];
      }
    }
    assert PicksReceipts(messages, rs, taken);
    forall k, l | 0 <= k < l < |taken|
      ensures taken[k] < taken[l]
    {
      assert taken[l] == shifted[l - 1];
      if k > 0 {
        assert taken[k] == shifted[k - 1];
      }
    }
    assert Increasing(taken);
  }

  /** The receipts are the handles of the messages that carry one, in order, and no others. */
  lemma {:induction false} ReceiptsSelectInOrder(messages: seq<Message>)
    returns (positions: seq<int>)
    ensures SelectsReceipts(messages, Receipts(messages), positions)
    decreases |messages|
  {
    if messages == [] {
      positions := [];
    } else {
      var m := messages[0];
      var tail := messages[1..];
      assert messages == [m] + tail;
      var rest := ReceiptsSelectInOrder(tail);
      if m.receiptHandle.Some? {
        SelectsTake(m, tail, Receipts(tail), rest);
        positions := [0] + Shift(rest);
      } else {
        SelectsSkip(m, tail, Receipts(tail), rest);
        positions := Shift(rest);
      }
    }
  }

  /** Dispatching a concatenation of lists dispatches the first list completely, then the second. */
  lemma {:induction false} DispatchAppend(
    adapter: SqsListen, a: seq<Message>, b: seq<Message>, handler: Handler, delete: Deleter)
    ensures Dispatch(adapter, a + b, handler, delete) ==
      Dispatch(adapter, a, handler, delete) + Dispatch(adapter, b, handler, delete)
    decreases |a|
  {
    if a == [] {
      assert a + b == b;
    } else {
      assert (a + b)[1..] == a[1..] + b;
      DispatchAppend(adapter, a[1..], b, handler, delete);
    }
  }

  /**
    No interleaving: the events for message `i` form one contiguous block (its handler call,
    then its delete if any) after every event of the earlier messages and before every event
    of the later ones.
   */
  lemma DispatchBlocks(
    adapter: SqsListen, messages: seq<Message>, i: int, handler: Handler, delete: Deleter)
    requires 0 <= i < |messages|
    ensures Dispatch(adapter, messages, handler, delete) ==
      Dispatch(adapter, messages[..i], handler, delete)
      + HandleMessage(adapter, messages[i], handler, delete)
      + Dispatch(adapter, messages[i + 1..], handler, delete)
  {
    assert messages == messages[..i] + messages[i..];
    DispatchAppend(adapter, messages[..i], messages[i..], handler, delete);
    assert messages[i..][1..] == messages[i + 1..];
  }

  /** The calls of one loop iteration: the handler call, then the delete when there is a receipt. */
  lemma HandleMessageCalls(adapter: SqsListen, m: Message, handler: Handler, delete: Deleter)
    ensures Calls(HandleMessage(adapter, m, handler, delete)) ==
      [Handle(Some(m), None)]
      + (if m.receiptHandle.Some?
         then [Delete(DeleteMessageRequest(adapter.queueUrl, m.receiptHandle.value))]
         else [])
  {
  }

  lemma HandleMessageProjections(adapter: SqsListen, m: Message, handler: Handler, delete: Deleter)
    ensures var hc := Calls(HandleMessage(adapter, m, handler, delete));
      && HandlerInputs(hc) == [(Some(m), None)]
      && DeleteRequests(hc) ==
           (if m.receiptHandle.Some?
            then [DeleteMessageRequest(adapter.queueUrl, m.receiptHandle.value)]
            else [])
      && ReceiveRequests(hc) == []
  {
    HandleMessageCalls(adapter, m, handler, delete);
    var c0 := Handle(Some(m), None);
    ProjectOne(c0);
    if m.receiptHandle.Some? {
      var c1 := Delete(DeleteMessageRequest(adapter.queueUrl, m.receiptHandle.value));
      ProjectOne(c1);
      HandlerInputsAppend([c0], [c1]);
      DeleteRequestsAppend([c0], [c1]);
      ReceiveRequestsAppend([c0], [c1]);
    } else {
      assert [c0] + [] == [c0];
    }
  }

  /** The handler is called once per message, in list order, with the message and no error. */
  lemma {:induction false} DispatchHandlerInputs(
    adapter: SqsListen, messages: seq<Message>, handler: Handler, delete: Deleter)
    ensures var inputs := HandlerInputs(Calls(Dispatch(adapter, messages, handler, delete)));
      && |inputs| == |messages|
      && forall i :: 0 <= i < |messages| ==> inputs[i] == (Some(messages[i]), None)
    decreases |messages|
  {
    if messages != [] {
      var head := HandleMessage(adapter, messages[0], handler, delete);
      var rest := Dispatch(adapter, messages[1..], handler, delete);
      CallsAppend(head, rest);
      HandlerInputsAppend(Calls(head), Calls(rest));
      DispatchHandlerInputs(adapter, messages[1..], handler, delete);
      HandleMessageProjections(adapter, messages[0], handler, delete);
    }
  }

  /** The deletes issued are exactly the expected ones: one per receipt handle, in order. */
  lemma {:induction false} DispatchDeletes(
    adapter: SqsListen, messages: seq<Message>, handler: Handler, delete: Deleter)
    ensures DeleteRequests(Calls(Dispatch(adapter, messages, handler, delete))) ==
      ExpectedDeletes(adapter.queueUrl, messages)
    decreases |messages|
  {
    if messages != [] {
      var m := messages[0];
      var head := HandleMessage(adapter, m, handler, delete);
      var rest := Dispatch(adapter, messages[1..], handler, delete);
      CallsAppend(head, rest);
      DeleteRequestsAppend(Calls(head), Calls(rest));
      DispatchDeletes(adapter, messages[1..], handler, delete);
      HandleMessageProjections(adapter, m, handler, delete);
      ExpectedDeletesCons(adapter.queueUrl, messages);
    }
  }

  lemma ExpectedDeletesCons(queueUrl: string, messages: seq<Message>)
    requires messages != []
    ensures ExpectedDeletes(queueUrl, messages) ==
      (if messages[0].receiptHandle.Some?
       then [DeleteMessageRequest(queueUrl, messages[0].receiptHandle.value)]
       else [])
      + ExpectedDeletes(queueUrl, messages[1..])
  {
    var m := messages[0];
    var first := if m.receiptHandle.Some? then [m.receiptHandle.value] else [];
    var tail := Receipts(messages[1..]);
    assert Receipts(messages) == first + tail;
    var all := ExpectedDeletes(queueUrl, messages);
    var rest := ExpectedDeletes(queueUrl, messages[1..]);
    assert |all| == |first| + |rest|;
    forall k | |first| <= k < |all|
      ensures all[k] == rest[k - |first|]
    {
      assert Receipts(messages)[k] == tail[k - |first|];
    }
  }

  /**
    The deletes of a dispatch, read against the message list: they are issued exactly for the
    messages that carry a receipt handle, in list order, one each, with that handle and the
    adapter's queue URL; a message without a receipt handle causes none.
   */
  lemma DispatchDeletesSelectReceipts(
    adapter: SqsListen, messages: seq<Message>, handler: Handler, delete: Deleter)
    returns (positions: seq<int>)
    ensures var deletes := DeleteRequests(Calls(Dispatch(adapter, messages, handler, delete)));
      && |deletes| == |positions|
      && Increasing(positions)
      && CoversReceipts(messages, positions)
      && forall k :: 0 <= k < |positions| ==>
           && 0 <= positions[k] < |messages|
           && deletes[k].queueUrl == adapter.queueUrl
           && messages[positions[k]].receiptHandle == Some(deletes[k].receiptHandle)
  {
    DispatchDeletes(adapter, messages, handler, delete);
    positions := ReceiptsSelectInOrder(messages);
  }

  /**
    Every delete in `cs` targets `queueUrl` and comes immediately after a handler call, with no
    error, for the message whose receipt handle it carries.
   */
  ghost predicate DeletesFollowTheirHandlerCalls(cs: seq<Call>, queueUrl: string)
  {
    forall j :: 0 <= j < |cs| && cs[j].Delete? ==> DeleteFollowsHandlerCall(cs, j, queueUrl)
  }

  ghost predicate DeleteFollowsHandlerCall(cs: seq<Call>, j: int, queueUrl: string)
    requires 0 <= j < |cs| && cs[j].Delete?
  {
    && 0 < j
    && cs[j].deleteRequest.queueUrl == queueUrl
    && cs[j - 1].Handle?
    && cs[j - 1].error.None?
    && cs[j - 1].message.Some?
    && cs[j - 1].message.value.receiptHandle == Some(cs[j].deleteRequest.receiptHandle)
  }

  /** Each delete comes right after the handler call for the very message it acknowledges. */
  lemma {:induction false} DeleteFollowsItsHandlerCall(
    adapter: SqsListen, messages: seq<Message>, handler: Handler, delete: Deleter)
    ensures DeletesFollowTheirHandlerCalls(
      Calls(Dispatch(adapter, messages, handler, delete)), adapter.queueUrl)
    decreases |messages|
  {
    if messages != [] {
      var m := messages[0];
      var head := HandleMessage(adapter, m, handler, delete);
      var rest := Dispatch(adapter, messages[1..], handler, delete);
      CallsAppend(head, rest);
      HandleMessageCalls(adapter, m, handler, delete);
      DeleteFollowsItsHandlerCall(adapter, messages[1..], handler, delete);
      var hc := Calls(head);
      var rc := Calls(rest);
      var cs := hc + rc;
      forall j | 0 <= j < |cs| && cs[j].Delete?
        ensures DeleteFollowsHandlerCall(cs, j, adapter.queueUrl)
      {
        if j < |hc| {
          assert hc[0] == Handle(Some(m), None);
          assert j == 1;
        } else {
          var k := j - |hc|;
          assert cs[j] == rc[k];
          assert DeleteFollowsHandlerCall(rc, k, adapter.queueUrl);
          assert cs[j - 1] == rc[k - 1];
        }
      }
    }
  }

  /**
    What the handler and the delete call return never changes which calls a dispatch makes:
    any two handlers and any two delete outcomes give the same sequence of calls.
   */
  lemma {:induction false} DispatchCallsIgnoreResults(adapter: SqsListen, messages: seq<Message>,
    handler1: Handler, delete1: Deleter, handler2: Handler, delete2: Deleter)
    ensures Calls(Dispatch(adapter, messages, handler1, delete1)) ==
      Calls(Dispatch(adapter, messages, handler2, delete2))
    decreases |messages|
  {
    if messages != [] {
      var m := messages[0];
      CallsAppend(
        HandleMessage(adapter, m, handler1, delete1),
        Dispatch(adapter, messages[1..], handler1, delete1));
      CallsAppend(
        HandleMessage(adapter, m, handler2, delete2),
        Dispatch(adapter, messages[1..], handler2, delete2));
      DispatchCallsIgnoreResults(adapter, messages[1..], handler1, delete1, handler2, delete2);
      assert Calls(HandleMessage(adapter, m, handler1, delete1)) ==
        Calls(HandleMessage(adapter, m, handler2, delete2));
    }
  }

  /** A failed receive leads to exactly one handler call, with the error only, and no delete. */
  lemma TickOnReceiveError(loop: PollLoop, receive: Receiver, delete: Deleter)
    requires receive(loop.request).Err?
    ensures var cs := Calls(Tick(loop, receive, delete));
      && cs == [Receive(loop.request), Handle(None, Some(receive(loop.request).error))]
      && HandlerInputs(cs) == [(None, Some(receive(loop.request).error))]
      && DeleteRequests(cs) == []
  {
    var err := receive(loop.request).error;
    var c0 := Receive(loop.request);
    var c1 := Handle(None, Some(err));
    assert Calls(Tick(loop, receive, delete)) == [c0] + [c1];
    ProjectOne(c0);
    ProjectOne(c1);
    HandlerInputsAppend([c0], [c1]);
    DeleteRequestsAppend([c0], [c1]);
  }

  /** A successful receive without a message list leads to no handler call and no delete. */
  lemma TickWithoutMessages(loop: PollLoop, receive: Receiver, delete: Deleter)
    requires receive(loop.request).Ok? && receive(loop.request).value.messages.None?
    ensures Calls(Tick(loop, receive, delete)) == [Receive(loop.request)]
  {
  }

  /**
    A successful receive with messages `ms`: one receive with the loop's request, the handler
    called once per message in order, and exactly the expected deletes against the queue URL
    captured by the loop.
   */
  lemma TickOnMessages(loop: PollLoop, receive: Receiver, delete: Deleter)
    requires receive(loop.request).Ok? && receive(loop.request).value.messages.Some?
    ensures var ms := receive(loop.request).value.messages.value;
      var cs := Calls(Tick(loop, receive, delete));
      && ReceiveRequests(cs) == [loop.request]
      && |HandlerInputs(cs)| == |ms|
      && (forall i :: 0 <= i < |ms| ==> HandlerInputs(cs)[i] == (Some(ms[i]), None))
      && DeleteRequests(cs) == ExpectedDeletes(loop.context.queueUrl, ms)
  {
    var ms := receive(loop.request).value.messages.value;
    var first := [ReceiveCalled(loop.request, receive(loop.request))];
    var rest := Dispatch(loop.context, ms, loop.handler, delete);
    var cs := Calls(first + rest);
    CallsAppend(first, rest);
    HandlerInputsAppend(Calls(first), Calls(rest));
    DeleteRequestsAppend(Calls(first), Calls(rest));
    ReceiveRequestsAppend(Calls(first), Calls(rest));
    DispatchHandlerInputs(loop.context, ms, loop.handler, delete);
    DispatchDeletes(loop.context, ms, loop.handler, delete);
    DispatchNeverReceives(loop.context, ms, loop.handler, delete);
  }

  lemma {:induction false} DispatchNeverReceives(
    adapter: SqsListen, messages: seq<Message>, handler: Handler, delete: Deleter)
    ensures ReceiveRequests(Calls(Dispatch(adapter, messages, handler, delete))) == []
    decreases |messages|
  {
    if messages != [] {
      var head := HandleMessage(adapter, messages[0], handler, delete);
      var rest := Dispatch(adapter, messages[1..], handler, delete);
      CallsAppend(head, rest);
      ReceiveRequestsAppend(Calls(head), Calls(rest));
      DispatchNeverReceives(adapter, messages[1..], handler, delete);
      HandleMessageProjections(adapter, messages[0], handler, delete);
    }
  }

  /** The handler is never called with both a message and an error, nor with neither. */
  lemma HandlerGetsExactlyOneArgument(loop: PollLoop, receive: Receiver, delete: Deleter)
    ensures forall input :: input in HandlerInputs(Calls(Tick(loop, receive, delete))) ==>
      (input.0.Some? <==> input.1.None?)
  {
    match receive(loop.request)
    case Err(_) =>
      TickOnReceiveError(loop, receive, delete);
    case Ok(response) =>
      if response.messages.Some? {
        TickOnMessages(loop, receive, delete);
      } else {
        TickWithoutMessages(loop, receive, delete);
      }
  }

  /**
    Replacing the loop's handler and the delete call by any others leaves the tick's calls
    unchanged: a failing handler never prevents or alters an acknowledgment.
   */
  lemma TickCallsIgnoreResults(
    loop: PollLoop, handler: Handler, receive: Receiver, delete1: Deleter, delete2: Deleter)
    ensures Calls(Tick(loop, receive, delete1)) ==
      Calls(Tick(loop.(handler := handler), receive, delete2))
  {
    var other := loop.(handler := handler);
    var first := [ReceiveCalled(loop.request, receive(loop.request))];
    match receive(loop.request)
    case Err(_) =>
    case Ok(response) =>
      if response.messages.Some? {
        var ms := response.messages.value;
        CallsAppend(first, Dispatch(loop.context, ms, loop.handler, delete1));
        CallsAppend(first, Dispatch(other.context, ms, other.handler, delete2));
        DispatchCallsIgnoreResults(loop.context, ms, loop.handler, delete1, handler, delete2);
      }
  }

  /**
    Every tick of a loop started by `Listen` polls with the listen request and deletes only
    from the queue URL that request named.
   */
  lemma ListenBindsQueue(
    adapter: SqsListen, input: ReceiveMessageRequest, handler: Handler,
    receive: Receiver, delete: Deleter)
    requires WaitFits(input.waitTimeSeconds)
    ensures var cs := Calls(Tick(Listen(adapter, input, handler).1, receive, delete));
      && ReceiveRequests(cs) == [input]
      && forall d :: d in DeleteRequests(cs) ==> d.queueUrl == input.queueUrl
  {
    var loop := Listen(adapter, input, handler).1;
    var cs := Calls(Tick(loop, receive, delete));
    match receive(loop.request)
    case Err(_) =>
      TickOnReceiveError(loop, receive, delete);
      var c0 := Receive(loop.request);
      var c1 := Handle(None, Some(receive(loop.request).error));
      ProjectOne(c0);
      ProjectOne(c1);
      ReceiveRequestsAppend([c0], [c1]);
    case Ok(response) =>
      if response.messages.Some? {
        TickOnMessages(loop, receive, delete);
      } else {
        TickWithoutMessages(loop, receive, delete);
      }
  }

  /**
    A second `Listen` on the same adapter rebinds the adapter, but the loop the first call
    started still deletes from the first queue.
   */
  lemma RelistenKeepsEarlierLoop(
    adapter: SqsListen, first: ReceiveMessageRequest, handler1: Handler,
    second: ReceiveMessageRequest, handler2: Handler, receive: Receiver, delete: Deleter)
    requires WaitFits(first.waitTimeSeconds) && WaitFits(second.waitTimeSeconds)
    ensures var (adapter1, loop1) := Listen(adapter, first, handler1);
      var (adapter2, _) := Listen(adapter1, second, handler2);
      && adapter2.queueUrl == second.queueUrl
      && forall d :: d in DeleteRequests(Calls(Tick(loop1, receive, delete))) ==>
           d.queueUrl == first.queueUrl
  {
    ListenBindsQueue(adapter, first, handler1, receive, delete);
  }

  /** Narrowing to 32 bits: a negative wait time wraps to a very long period. */
  lemma NegativeWaitWraps(w: I64)
    requires -U32_MODULUS <= w <= -2
    ensures WaitFits(Some(w)) && IntervalFor(Some(w)).seconds == w + U32_MODULUS + 1
  {
  }

  /** Two concrete periods: a five-second wait polls every six seconds, no wait every second. */
  lemma IntervalExamples()
    ensures IntervalFor(Some(5)) == Seconds(6)
    ensures IntervalFor(None) == Seconds(1)
  {
  }

  /**
    A response with a message carrying receipt "r1" followed by one with no receipt: the
    handler sees both, in order, and exactly one delete is issued, for "r1".
   */
  lemma MixedReceiptsExample(adapter: SqsListen, handler: Handler, delete: Deleter)
    ensures var m1 := Message(Some("1"), None, Some("r1"));
      var m2 := Message(Some("2"), None, None);
      var cs := Calls(Dispatch(adapter, [m1, m2], handler, delete));
      && HandlerInputs(cs) == [(Some(m1), None), (Some(m2), None)]
      && DeleteRequests(cs) == [DeleteMessageRequest(adapter.queueUrl, "r1")]
  {
    var m1 := Message(Some("1"), None, Some("r1"));
    var m2 := Message(Some("2"), None, None);
    DispatchHandlerInputs(adapter, [m1, m2], handler, delete);
    DispatchDeletes(adapter, [m1, m2], handler, delete);
    assert [m1, m2][1..] == [m2];
    assert [m2][1..] == [];
    assert Receipts([m2]) == [];
    assert Receipts([m1, m2]) == ["r1"] + Receipts([m2]);
  }
}
