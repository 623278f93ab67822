/**
 * The inbound envelope (`DelayMessage`), as the JSON decoder fills it: a
 * field absent from the JSON keeps its zero value, and each timing field has
 * the width of its Go type.
 *
 * Its documented contract, with `received` the time the relay reads it and
 * `process` the time the fields resolve to:
 *  - `processIn` sets the process time relative to the time of receipt;
 *  - `processAt` (Unix seconds) is used only when `processIn` is not set;
 *  - received before the process time: the message is enqueued;
 *  - received after it by more than `toleranceSecond` seconds: ignored;
 *  - received after it by at most `toleranceSecond` seconds: processed at once;
 *  - `toleranceSecond` defaults to 0.
 * The lemmas of module `DelayContract` state these of the dispatch decision.
 */
module Message {
  import opened Go

  datatype DelayMessage = DelayMessage(
    topic: string,            // destination topic
    payload: string,          // the record value, base64-encoded
    processIn: int32,         // seconds from receipt
    processAt: int64,         // Unix seconds
    toleranceSecond: int32    // grace period, in seconds
  )
}
