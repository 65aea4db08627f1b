/**
  The values the listener exchanges with the queue client. They mirror the records of the
  rusoto_sqs crate that the listener re-exports; only the fields the listener reads are
  given a meaning, the rest are carried along unchanged.
 */
module SqsTypes {
  import opened Wrappers

  /** A signed 64-bit integer, the width rusoto_sqs gives to integer request fields. */
  type I64 = x: int | -0x8000_0000_0000_0000 <= x < 0x8000_0000_0000_0000

  /** Number of values of an unsigned 32-bit integer. */
  const U32_MODULUS: int := 0x1_0000_0000

  /** Largest unsigned 32-bit integer. */
  const U32_MAX: int := 0xFFFF_FFFF

  /** An unsigned 32-bit integer. */
  type U32 = x: int | 0 <= x < U32_MODULUS

  /** A message as the queue returns it. Only `receiptHandle` is interpreted by the listener. */
  datatype Message = Message(
    messageId: Option<string>,
    body: Option<string>,
    receiptHandle: Option<string>)

  /**
    What one poll asks the queue for. `queueUrl` and `waitTimeSeconds` are read by the
    listener; the other fields are passed to the client untouched on every poll.
   */
  datatype ReceiveMessageRequest = ReceiveMessageRequest(
    queueUrl: string,
    waitTimeSeconds: Option<I64>,
    maxNumberOfMessages: Option<I64>,
    visibilityTimeout: Option<I64>,
    attributeNames: Option<seq<string>>)

  /** The answer to one poll: possibly no message list at all. */
  datatype ReceiveMessageResult = ReceiveMessageResult(messages: Option<seq<Message>>)

  /** The request that acknowledges (removes) one message. */
  datatype DeleteMessageRequest = DeleteMessageRequest(queueUrl: string, receiptHandle: string)

  /** An opaque failure of the receive call. */
  datatype ReceiveError = ReceiveError(description: string)

  /** An opaque failure of the delete call. */
  datatype DeleteError = DeleteError(description: string)

  /** The handler's failure marker; it carries no data. */
  datatype HandlerError = HandlerError
}
