/**
  The listener adapter: its state, the polling interval it derives from the request, and the
  work one scheduler tick performs (receive, hand each message to the handler, acknowledge it).
  A tick is a pure function from the collaborators' answers to the trace of calls it makes.
 */
module SqsListener {
  import opened Wrappers
  import opened SqsTypes
  import opened Trace

  /** Polling period, in seconds, used when the request sets no long-poll wait time. */
  const DEFAULT_INTERVAL: U32 := 1

  /** A scheduler period; the scheduler counts seconds in an unsigned 32-bit integer. */
  datatype Interval = Seconds(seconds: U32)

  /** AWS region the client talks to; opaque to the listener. */
  datatype Region = Region(name: string)

  /** How the queue client was built; forwarded to the client and never read by the listener. */
  datatype ClientConfig =
    | FromRegion(region: Region)
    | WithProviders(dispatcher: string, credentials: string, region: Region)

  /** The queue client handle. Cloning it shares the same remote queue. */
  datatype SqsClient = SqsClient(config: ClientConfig)

  /** Adapter state: the client and the queue URL recorded by the latest `Listen`. */
  datatype SqsListen = SqsListen(client: SqsClient, queueUrl: string)

  /** The user handler: given a message or a receive error, it reports success or failure. */
  type Handler = (Option<Message>, Option<ReceiveError>) -> Result<(), HandlerError>

  /** The client's receive call, as seen by one tick. */
  type Receiver = ReceiveMessageRequest -> Result<ReceiveMessageResult, ReceiveError>

  /** The client's delete call, as seen by one tick. */
  type Deleter = DeleteMessageRequest -> Result<(), DeleteError>

  /**
    The job `Listen` hands to the scheduler: its period, the request it polls with, the clone of
    the adapter it acknowledges through, and the handler it calls.
   */
  datatype PollLoop = PollLoop(
    interval: Interval,
    request: ReceiveMessageRequest,
    context: SqsListen,
    handler: Handler)

  /** Builds an adapter for a region; no queue is bound yet. */
  function New(region: Region): (a: SqsListen)
    ensures a.queueUrl == ""
    ensures a.client.config.region == region
  {
    SqsListen(SqsClient(FromRegion(region)), "")
  }

  /** Builds an adapter from an explicit dispatcher and credentials provider; no queue is bound. */
  function NewWith(dispatcher: string, credentials: string, region: Region): (a: SqsListen)
    ensures a.queueUrl == ""
    ensures a.client.config.region == region
  {
    SqsListen(SqsClient(WithProviders(dispatcher, credentials, region)), "")
  }

  /** Rust's `as u32` on a 64-bit signed integer: keep the low 32 bits. */
  function AsU32(w: I64): (r: U32)
    ensures (r - w) % U32_MODULUS == 0
    ensures 0 <= w < U32_MODULUS ==> r == w
  {
    w % U32_MODULUS
  }

  /** The wait time, once narrowed to 32 bits, leaves room for the `+ 1`. */
  predicate WaitFits(waitTimeSeconds: Option<I64>)
  {
    waitTimeSeconds.Some? ==> AsU32(waitTimeSeconds.value) < U32_MAX
  }

  /**
    The polling period: one second more than the long-poll wait time (narrowed to 32 bits) when
    one is set, otherwise the default of one second.
   */
  function IntervalFor(waitTimeSeconds: Option<I64>): (r: Interval)
    requires WaitFits(waitTimeSeconds)
    ensures waitTimeSeconds.None? ==> r == Seconds(DEFAULT_INTERVAL)
    ensures waitTimeSeconds.Some? ==>
      1 <= r.seconds && (r.seconds - (waitTimeSeconds.value + 1)) % U32_MODULUS == 0
    ensures waitTimeSeconds.Some? && 0 <= waitTimeSeconds.value < U32_MAX ==>
      r.seconds == waitTimeSeconds.value + 1
  {
    match waitTimeSeconds
    case Some(w) => Seconds(AsU32(w) + 1)
    case None => Seconds(DEFAULT_INTERVAL)
  }

  /**
    Records the request's queue URL on the adapter and schedules polling with a clone of the
    updated adapter; the returned loop stands for the scheduled job.
   */
  function Listen(adapter: SqsListen, input: ReceiveMessageRequest, handler: Handler)
    : (r: (SqsListen, PollLoop))
    requires WaitFits(input.waitTimeSeconds)
    ensures r.0.queueUrl == input.queueUrl && r.0.client == adapter.client
    ensures r.1.context == r.0 && r.1.request == input && r.1.handler == handler
    ensures r.1.interval == IntervalFor(input.waitTimeSeconds)
  {
    var bound := adapter.(queueUrl := input.queueUrl);
    (bound, PollLoop(IntervalFor(input.waitTimeSeconds), input, bound, handler))
  }

  /**
    One scheduler firing: receive with the captured request; on success process the response,
    on failure pass the error to the handler and ignore what it returns.
   */
  function Tick(loop: PollLoop, receive: Receiver, delete: Deleter): (t: seq<Event>)
    ensures 1 <= |t| && t[0] == ReceiveCalled(loop.request, receive(loop.request))
    ensures forall i :: 1 <= i < |t| ==> !t[i].ReceiveCalled?
  {
    var received := receive(loop.request);
    [ReceiveCalled(loop.request, received)] +
    match received
    case Ok(response) => ProcessResponse(loop.context, response, loop.handler, delete)
    case Err(err) => [HandlerCalled(None, Some(err), loop.handler(None, Some(err)))]
  }

  /** Handles and acknowledges every message of a response; no message list means no call. */
  function ProcessResponse(
    adapter: SqsListen, response: ReceiveMessageResult, handler: Handler, delete: Deleter)
    : (t: seq<Event>)
    ensures response.messages.None? ==> t == []
  {
    match response.messages
    case Some(messages) => Dispatch(adapter, messages, handler, delete)
    case None => []
  }

  /** The `for` loop over a response's messages, front to back. */
  function Dispatch(adapter: SqsListen, messages: seq<Message>, handler: Handler, delete: Deleter)
    : (t: seq<Event>)
    ensures |messages| <= |t| <= 2 * |messages|
    ensures forall i :: 0 <= i < |t| ==> !t[i].ReceiveCalled?
    ensures messages != [] ==>
      t[0].HandlerCalled? && t[0].message == Some(messages[0]) && t[0].error == None
    decreases |messages|
  {
    if messages == [] then []
    else
      HandleMessage(adapter, messages[0], handler, delete)
      + Dispatch(adapter, messages[1..], handler, delete)
  }

  /** One iteration of that loop: call the handler, discard its result, then acknowledge. */
  function HandleMessage(adapter: SqsListen, message: Message, handler: Handler, delete: Deleter)
    : (t: seq<Event>)
    ensures 1 <= |t| <= 2
    ensures t[0].HandlerCalled? && t[0].message == Some(message) && t[0].error == None
    ensures t[1..] == AckMessage(adapter, message, delete)
  {
    [HandlerCalled(Some(message), None, handler(Some(message), None))]
    + AckMessage(adapter, message, delete)
  }

  /**
    Acknowledges a message: deletes it by its receipt handle from the adapter's queue, or does
    nothing when the message has no receipt handle. The delete's answer is discarded.
   */
  function AckMessage(adapter: SqsListen, message: Message, delete: Deleter): (t: seq<Event>)
    ensures |t| <= 1
    ensures t == [] <==> message.receiptHandle.None?
    ensures forall e :: e in t ==>
      && e.DeleteCalled?
      && e.deletion.queueUrl == adapter.queueUrl
      && message.receiptHandle == Some(e.deletion.receiptHandle)
  {
    if message.receiptHandle.None? then []
    else
      var request := DeleteMessageRequest(adapter.queueUrl, message.receiptHandle.value);
      [DeleteCalled(request, delete(request))]
  }
}
