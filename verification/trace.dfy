/**
  Traces of the side effects one poll tick performs. An `Event` records a call the listener
  made on a collaborator together with the value the collaborator returned; a `Call` is the
  same call with that returned value forgotten.
 */
module Trace {
  import opened Wrappers
  import opened SqsTypes

  /** A call on the queue client or on the user handler. */
  datatype Call =
    | Receive(receiveRequest: ReceiveMessageRequest)
    | Handle(message: Option<Message>, error: Option<ReceiveError>)
    | Delete(deleteRequest: DeleteMessageRequest)

  /** A call together with what it returned. */
  datatype Event =
    | ReceiveCalled(
        request: ReceiveMessageRequest,
        received: Result<ReceiveMessageResult, ReceiveError>)
    | HandlerCalled(
        message: Option<Message>,
        error: Option<ReceiveError>,
        handled: Result<(), HandlerError>)
    | DeleteCalled(deletion: DeleteMessageRequest, deleted: Result<(), DeleteError>)

  function CallOf(e: Event): (c: Call)
  {
    match e
    case ReceiveCalled(req, _) => Receive(req)
    case HandlerCalled(m, err, _) => Handle(m, err)
    case DeleteCalled(req, _) => Delete(req)
  }

  /** The calls of a trace, in order, with the returned values dropped. */
  function Calls(t: seq<Event>): (cs: seq<Call>)
  {
    seq(|t|, i requires 0 <= i < |t| => CallOf(t[i]))
  }

  /** The arguments of every handler call, in order. */
  function HandlerInputs(cs: seq<Call>): (inputs: seq<(Option<Message>, Option<ReceiveError>)>)
  {
    if cs == [] then []
    else (if cs[0].Handle? then [(cs[0].message, cs[0].error)] else []) + HandlerInputs(cs[1..])
  }

  /** Every delete request issued, in order. */
  function DeleteRequests(cs: seq<Call>): (requests: seq<DeleteMessageRequest>)
  {
    if cs == [] then []
    else (if cs[0].Delete? then [cs[0].deleteRequest] else []) + DeleteRequests(cs[1..])
  }

  /** Every receive request issued, in order. */
  function ReceiveRequests(cs: seq<Call>): (requests: seq<ReceiveMessageRequest>)
  {
    if cs == [] then []
    else (if cs[0].Receive? then [cs[0].receiveRequest] else []) + ReceiveRequests(cs[1..])
  }

  /** The projections of a one-call trace. */
  lemma ProjectOne(c: Call)
    ensures HandlerInputs([c]) == (if c.Handle? then [(c.message, c.error)] else [])
    ensures DeleteRequests([c]) == (if c.Delete? then [c.deleteRequest] else [])
    ensures ReceiveRequests([c]) == (if c.Receive? then [c.receiveRequest] else [])
  {
    assert [c][1..] == [];
  }

  lemma CallsAppend(a: seq<Event>, b: seq<Event>)
    ensures Calls(a + b) == Calls(a) + Calls(b)
  {
  }

  lemma {:induction false} HandlerInputsAppend(a: seq<Call>, b: seq<Call>)
    ensures HandlerInputs(a + b) == HandlerInputs(a) + HandlerInputs(b)
  {
    if a != [] {
      assert (a + b)[1..] == a[1..] + b;
      HandlerInputsAppend(a[1..], b);
    } else {
      assert a + b == b;
    }
  }

  lemma {:induction false} DeleteRequestsAppend(a: seq<Call>, b: seq<Call>)
    ensures DeleteRequests(a + b) == DeleteRequests(a) + DeleteRequests(b)
  {
    if a != [] {
      assert (a + b)[1..] == a[1..] + b;
      DeleteRequestsAppend(a[1..], b);
    } else {
      assert a + b == b;
    }
  }

  lemma {:induction false} ReceiveRequestsAppend(a: seq<Call>, b: seq<Call>)
    ensures ReceiveRequests(a + b) == ReceiveRequests(a) + ReceiveRequests(b)
  {
    if a != [] {
      assert (a + b)[1..] == a[1..] + b;
      ReceiveRequestsAppend(a[1..], b);
    } else {
      assert a + b == b;
    }
  }
}
