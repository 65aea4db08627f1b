# sqslisten in Dafny

A model of the `sqslisten` crate. The crate is a polling adapter over an SQS queue client.
`SQSListen::listen` records the queue URL on the adapter and derives a polling period from the
request's long-poll wait time. It then schedules a job that, on every firing:

1. receives with the listen request;
2. for each received message, in order, calls the user handler and then, whatever it returned,
   deletes the message through its receipt handle if it has one.

A failed receive is passed to the handler as `(None, Some(error))`. Delete failures are swallowed.

The model treats one firing (a *tick*) as a pure function. Its inputs are the receive call, the
user handler and the delete call, all given as Dafny function values. Its output is the trace of
calls the tick makes. Each `Trace.Event` records a call together with the value it returned.
`Trace.Calls` forgets those returned values. This lets the model state "the handler's and the
delete's answers never change what the tick does next" as an equality of call sequences.

Modules:

- `Wrappers`: Rust-style `Option` and `Result`.
- `SqsTypes`: the rusoto_sqs records the adapter reads (`Message`, `ReceiveMessageRequest`,
  `ReceiveMessageResult`, `DeleteMessageRequest`), opaque errors, and the `I64`/`U32` integer
  widths.
- `Trace`: calls, events, and the projections `HandlerInputs`, `DeleteRequests` and
  `ReceiveRequests`.
- `SqsListener`: what `src/lib.rs` does. This covers the constructors, the interval policy,
  `Listen`, `Tick`, `ProcessResponse`, the message loop `Dispatch`, `HandleMessage` (one loop
  iteration) and `AckMessage`.
- `ListenerProperties`: reference definitions (`Receipts`, `ExpectedDeletes`) and the lemmas
  that connect the trace to them.

The crate's wait-time field is a signed 64-bit integer. This width is taken from the rusoto_sqs
crate, which is not part of this model. The cast `as u32` keeps the low 32 bits, and `AsU32`
models it as a Euclidean remainder modulo 2^32. For negative values this is the same as
two's-complement truncation.

The code never checks the queue URL. The model accepts any string, including the empty URL that
a freshly built adapter holds.

## Model

| member | source | states |
|---|---|---|
| SqsListener.New | src/lib.rs:67-72 | An adapter built from a region has no queue bound yet: its queue URL is empty. It uses that region. |
| SqsListener.NewWith | src/lib.rs:74-89 | An adapter built from a dispatcher, credentials and a region is in the same initial state: empty queue URL, that region. |
| SqsListener.AsU32 | src/lib.rs:108 | The `as u32` narrowing keeps the wait time modulo 2^32. It leaves values in 0..2^32-1 unchanged. |
| SqsListener.IntervalFor | src/lib.rs:101-110 | No wait time gives exactly the 1-second default. A wait time `w` gives at least one second, congruent to `w + 1` modulo 2^32. For `0 <= w < 2^32 - 1` the period is exactly `w + 1` seconds. |
| ListenerProperties.IntervalExamples | src/lib.rs:107-110 | A 5-second wait polls every 6 seconds. No wait time polls every second. |
| ListenerProperties.NegativeWaitWraps | src/lib.rs:108 | A negative wait time from -2^32 to -2 wraps through the narrowing to a period of `w + 2^32 + 1` seconds. |
| SqsListener.Listen | src/lib.rs:103-110 | The adapter now holds the request's queue URL and keeps its client. The scheduled loop captures that updated adapter, the request and the handler. Its period is the one the interval rule gives for the request's wait time. |
| SqsListener.Tick | src/lib.rs:113-120 | Every tick starts with exactly one receive, made with the loop's captured request and recording the client's answer. |
| SqsListener.ProcessResponse | src/lib.rs:134-142 | A response with no message list causes no call at all. |
| SqsListener.Dispatch | src/lib.rs:136-139 | The loop over a message list makes, in all, at least as many calls as there are messages and at most twice as many, and never receives. When the list is not empty, the first call is the handler call for the first message, with no error. |
| SqsListener.HandleMessage | src/lib.rs:136-139 | One loop iteration makes one or two calls. The first is the handler call with the message and no error. The rest is the acknowledgment of that message. |
| SqsListener.AckMessage | src/lib.rs:145-157 | A message without a receipt handle causes no call. A message with one causes exactly one delete, against the adapter's queue URL and carrying that handle. |
| ListenerProperties.ReceiptsSelectInOrder | src/lib.rs:146-154 | The reference list of receipts has one entry per message with a receipt handle. Entries follow the message order and take the handle of that message. Messages without a handle are skipped. |
| ListenerProperties.DispatchAppend | src/lib.rs:136-139 | Looping over `a + b` makes all calls for `a`, then all calls for `b`. |
| ListenerProperties.DispatchBlocks | src/lib.rs:136-139 | Message `i`'s calls form one contiguous block: its handler call, then its delete if any. The block comes after every call for earlier messages and before every call for later ones. Nothing is interleaved or batched. |
| ListenerProperties.DispatchHandlerInputs | src/lib.rs:134-139 | For a list `ms`, the handler is called exactly once per element of `ms`. The `i`-th call is `(Some(ms[i]), None)`. |
| ListenerProperties.DispatchDeletes | src/lib.rs:136-156 | The deletes are exactly the reference deletes: one per receipt handle, in message order, against the adapter's queue URL. |
| ListenerProperties.DispatchDeletesSelectReceipts | src/lib.rs:145-156 | The `k`-th delete belongs to the `k`-th message with a receipt handle, in increasing list position. It carries that message's handle and the adapter's queue URL. Every message with a handle gets a delete. |
| ListenerProperties.DeleteFollowsItsHandlerCall | src/lib.rs:136-156 | Every delete comes right after the error-free handler call for the message whose receipt handle it carries. A delete is never first. |
| ListenerProperties.DispatchCallsIgnoreResults | src/lib.rs:137-138 | Any two handlers and any two delete outcomes give the same sequence of calls over a message list. In particular, a handler that always fails still gets every message deleted. |
| ListenerProperties.DispatchNeverReceives | src/lib.rs:134-157 | Processing a response makes no further receive call. |
| ListenerProperties.TickOnReceiveError | src/lib.rs:114-118 | A failed receive is followed by exactly one handler call, `(None, Some(error))`, and by no delete. |
| ListenerProperties.TickWithoutMessages | src/lib.rs:134-141 | A successful receive without a message list is the tick's only call: no handler call and no delete. |
| ListenerProperties.TickOnMessages | src/lib.rs:114-139 | A successful receive of `ms` gives one receive with the captured request and one handler call per message, in order. It then gives exactly the reference deletes against the loop's captured queue URL. |
| ListenerProperties.HandlerGetsExactlyOneArgument | src/lib.rs:113-139 | On every path of a tick, each handler call has exactly one of message and error present. |
| ListenerProperties.TickCallsIgnoreResults | src/lib.rs:114-156 | Replacing the loop's handler and the delete call by any others leaves the tick's calls unchanged. |
| ListenerProperties.ListenBindsQueue | src/lib.rs:103-105 | A tick of the loop that `Listen` starts receives with the listen request. It deletes only from the queue URL that request named. |
| ListenerProperties.RelistenKeepsEarlierLoop | src/lib.rs:103-105 | A second `Listen` on the same adapter rebinds the adapter's queue URL. The loop started by the first call still deletes from the first queue only. |
| ListenerProperties.MixedReceiptsExample | src/lib.rs:134-156 | Take message 1 with receipt "r1", then message 2 with none. The handler sees both, in that order. Exactly one delete is issued, for "r1". |

## Left out

- The scheduler and its lifecycle: `Scheduler::new`, `every(..).run`, `watch_thread` (src/lib.rs:112-121), and `ScheduleHandle::stop`, which the crate itself never calls (only its usage example does). These are background threads and timers. The model describes a single tick and does not model repetition, non-overlap of ticks or stopping.
- The rusoto client: `SqsClient::new`/`new_with`, `receive_message(..).sync()` and `delete_message(..).sync()`. These are network calls into a library outside this model. Their answers are inputs given as function values.
- The delete call is modelled as a pure function of its request. Two deletes with equal requests in one tick therefore see the same answer. The answer is discarded either way, and the independence lemmas range over every such function.
- The handler is modelled as a pure function of its arguments. A Rust `Fn` handler can keep interior state, so two calls with equal arguments may answer differently; the model cannot show that. Its answer is discarded either way, and the independence lemmas range over every handler.
- Credentials, request dispatcher and region. They are kept only as opaque configuration of the client.
- The empty `SQSListenHandler` trait and the data-free `HandlerError` struct beyond its use as the handler's error marker (src/lib.rs:59-64). They have no behaviour.
- `examples/basic.rs`. It is a usage demonstration that prints and sleeps.
- A handler that panics. Rust's unwinding is outside the model, and the handler is a total function.
- IntervalFor: requires that the narrowed wait time is below 2^32 - 1, so `+ 1` cannot overflow `u32`. It does not model the debug-build panic or release-build wrap to zero.
- Listen: carries the same requires as IntervalFor. It therefore leaves out the panic path, on which the adapter's queue URL is already rewritten when the period computation fails.
