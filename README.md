# delay-kafka: a verified model of the dispatch core

delay-kafka relays messages from a Kafka "delay" topic to their destination
topics. Each record on the delay topic carries a JSON envelope
(`DelayMessage`): a destination topic, a base64 payload, and timing hints
(`processIn` seconds from receipt, or `processAt` Unix seconds, and a
`toleranceSecond` grace period). The consumer decides, per record, to drop
the envelope (too late), to write the decoded payload at once, or to enqueue
an asynq task that writes it at the process time. The task server's handler
later decodes the task and writes the record.

This project models that core in Dafny:

- `Dispatch.HandleMessage` is `Consumer.handleMessage`. The clock reading, the
  JSON decoder's result, and the answers of the Kafka writer and the asynq
  client are parameters. It returns the effects it causes (`Effects.Effect`:
  a `Write` of a record, or an `Enqueue` of a task at an instant) and the error
  it returns.
- `Dispatch.Decide` is the timing branch. Instants are integer nanoseconds
  since the Unix epoch.
  - `time.Unix` is modelled with its int64 wrap-around.
  - `-msg.ToleranceSecond` is negated in int32 (`Go.Neg32`).
  - The zero Time is `GoTime.ZeroTime`.
- `Ingest.Start` is `Consumer.start`. It loops over a finite sequence of reader
  answers and stops at the first end of stream.
- `TaskServer.HandleTask` is the handler registered for task type `"main"`.
- `Headers.KafkaHeadersToMap` and `Task.ToKafkaHeaders` are the header codecs.
  Both are loops, so both are methods. `Headers.HeadersToMap` is the function
  that specifies the first one.
- `Base64` is Go's `StdEncoding` (RFC 4648 section 4, padded). Go's decoder
  skips CR and LF anywhere and ignores the unused bits of a padded final
  quantum. `EncodeToString` is the producer-side inverse.
- `DelayContract` states the tolerance rules documented on `DelayMessage` as
  lemmas about `Decide`.
- `Scenarios` works the decision out on concrete envelopes.

Behaviour of the code that the model keeps, where the `DelayMessage`
documentation would suggest otherwise:

- The immediate branch writes to the topic of the record just read (`m.Topic`,
  the delay topic itself), not to the envelope's `topic`. The delayed branch
  and the task handler use the envelope's topic. So an on-time envelope for
  `"orders"` is written back to the delay topic, not to `"orders"`.
- A negative `toleranceSecond` puts the drop bound in the future. An envelope
  due less than that many seconds ahead is then dropped, although the
  documentation says an early envelope is enqueued. With `MinInt32`, the
  negation wraps and the tolerance acts as 2^31 seconds.
- A `processAt` within 62135596800 seconds of the int64 maximum wraps inside
  `time.Unix` to the far past, so the envelope is dropped.
- The "execution time is not set" branch cannot be taken for any clock reading
  after the zero Time (`Dispatch.ExecutionTimeAlwaysSet`).
- The delayed path rebuilds the headers from a map. Duplicate keys therefore
  collapse to their last value, and the header order is Go's map order. The
  immediate path writes the record's header list unchanged.

## Model

| member | source | states |
|---|---|---|
| `Dispatch.ProcessTime` | internal/core/app.go:195-204 | a positive `processIn` gives an instant after `now`; otherwise a positive `processAt` gives `time.Unix(processAt, 0)`; otherwise `now` |
| `GoTime.AddSeconds` | internal/core/app.go:198 | adding a whole number of seconds moves the instant by exactly that many seconds, forward for a positive count and back for a negative one |
| `Go.Neg32` | internal/core/app.go:210 | int32 negation is negation modulo 2^32: it is the mathematical negation except for `MinInt32` |
| `Dispatch.ToleranceBound` | internal/core/app.go:210 | the bound lies `toleranceSecond` seconds before `now`, or 2^31 seconds before for `MinInt32`; it is never after `now` unless the tolerance is negative and not `MinInt32` |
| `Dispatch.Decide` | internal/core/app.go:205-242 | NotSet exactly when the process time is the zero Time; Drop only before the bound; Immediate only between the bound and `now`; Delayed only after `now`, at the process time (`DecisionBoundaries` gives the converses) |
| `Dispatch.TaskFor` | internal/core/app.go:226-230 | the task carries the envelope's topic and its payload text unchanged, and a map with a key for every header of the record and no more entries than headers |
| `Dispatch.HandleMessage` | internal/core/app.go:176-243 | handling a record causes at most one effect, and an effect only for an envelope that parsed and whose payload is valid base64 |
| `Dispatch.ValidationFirst` | internal/core/app.go:177-193 | an unparseable envelope returns the decoder's error, and an invalid base64 payload returns `CorruptInputError`; in both cases nothing is written or enqueued, whatever the timing fields |
| `Dispatch.ProcessTimeResolution` | internal/core/app.go:195-204 | a positive `processIn` is a strictly positive delay after `now`; otherwise a positive, representable `processAt` is the instant of that Unix second; otherwise the process time is `now` |
| `Dispatch.ProcessInOverridesProcessAt` | pkg/message/message.go:8-11 | when `processIn` is positive, no value of `processAt` changes the decision or the effects |
| `Dispatch.ProcessInIsRelative` | pkg/message/message.go:8-9 | with `processIn` set, receiving later moves the process time by the same amount and does not change whether the envelope is dropped |
| `Dispatch.ExecutionTimeAlwaysSet` | internal/core/app.go:195-209 | for a clock reading after the zero Time, the process time is never the zero Time, even when `time.Unix` wraps, so the "not set" error is never returned |
| `Dispatch.DecisionBoundaries` | internal/core/app.go:210-242 | Drop iff the process time is before the tolerance bound; Immediate iff it is between the bound and `now` inclusive; Delayed iff it is at or after the bound and after `now`, scheduled at exactly the process time |
| `Dispatch.DropBoundaryExclusive` | internal/core/app.go:210-213 | a process time exactly at the tolerance bound is not dropped |
| `Dispatch.DropIsSilent` | internal/core/app.go:210-213 | a dropped envelope returns no error and causes no effect |
| `Dispatch.ImmediateWritesOnce` | internal/core/app.go:214-225 | a due envelope causes exactly one write and no enqueue; the write carries the decoded payload and the record's own headers, goes to the topic of the record read, and the writer's error is returned |
| `Dispatch.DelayedEnqueuesOnce` | internal/core/app.go:226-242 | an envelope not yet due causes exactly one enqueue and no write, of type "main" at exactly the process time; the task holds the envelope's topic, its payload text unchanged and the record's headers as a map, and the client's error is returned |
| `Dispatch.DelayedDeliveryFidelity` | internal/core/app.go:226-237 | an enqueued task is due after `now`; its body decodes to the same bytes as the payload decoded at ingest; its topic is the envelope's; any header list rebuilt from it forms the same map as the record's headers |
| `Dispatch.FarFutureProcessAtIsDropped` | internal/core/app.go:199-200 | a `processAt` that wraps inside `time.Unix` makes the envelope dropped |
| `GoTime.Unix` | internal/core/app.go:200 | `time.Unix(sec, 0)` is `sec` seconds after the epoch when `sec + 62135596800` fits an int64, and `2^64` seconds earlier otherwise |
| `DelayContract.EarlyIsEnqueued` | pkg/message/message.go:13-14 | with a non-negative tolerance or `MinInt32`, an envelope received before its process time is enqueued for that time |
| `DelayContract.LateBeyondToleranceIsIgnored` | pkg/message/message.go:15-16 | for a tolerance other than `MinInt32`, an envelope received later than its process time by more than the tolerance is dropped |
| `DelayContract.LateWithinToleranceIsImmediate` | pkg/message/message.go:17-18 | an envelope received at or after its process time, late by at most the tolerance, is processed at once |
| `DelayContract.DefaultTolerance` | pkg/message/message.go:12-19 | with tolerance 0, any late envelope is dropped and one exactly on time is processed at once |
| `DelayContract.NoTimingMeansNow` | internal/core/app.go:201-204 | with neither timing field set, the envelope is processed at once if the tolerance is not negative or is `MinInt32`, and dropped if it is any other negative value |
| `DelayContract.NegativeToleranceDropsEarly` | pkg/message/message.go:19 | a negative tolerance drops an envelope whose process time is less than that many seconds ahead |
| `DelayContract.MinToleranceWraps` | internal/core/app.go:210 | with tolerance `MinInt32`, the bound is `2^31` seconds before `now`, so lateness up to that is processed at once |
| `Headers.HeadersToMap` | internal/core/app.go:271-280 | every header's key is in the map, and the map has no more entries than the list has headers |
| `Headers.KafkaHeadersToMap` | internal/core/app.go:271-280 | the loop builds exactly `HeadersToMap(headers)`; an empty list gives the empty map |
| `Headers.HeadersToMapKeys` | internal/core/app.go:271-280 | a key is in the map iff some header carries it |
| `Headers.HeadersToMapLastWins` | internal/core/app.go:276-278 | the value stored under a key is the value of its last occurrence in the list |
| `Headers.HeaderListRoundTrip` | internal/core/app.go:120-132 | a list with one header per map entry and no repeated key converts back to that map |
| `Task.ToKafkaHeaders` | internal/core/app.go:120-132 | in any iteration order, the result has one header per map entry and no repeated key (so none for an empty map), and it converts back to the same map |
| `Task.ToKafkaMessageValue` | internal/core/app.go:134-136 | a body that decodes gives at most 3 bytes per 4 characters; `DelayedDeliveryFidelity` shows it gives back the bytes decoded at ingest |
| `TaskServer.HandleTask` | internal/core/app.go:89-110 | an unparseable task returns the decoder's error, and an invalid body returns `CorruptInputError`, with no write in either case; otherwise there is exactly one write to the task's topic, with the decoded body and headers that rebuild the task's map, and the writer's error is returned |
| `Base64.DecodeEncodeRoundTrip` | internal/core/app.go:134-136 | standard base64 decoding of an encoding gives back the original bytes |
| `Base64.EncodeToString` | pkg/message/message.go:6-7 | the payload text has 4 characters for every started 3-byte group: three times the text length, less 8, is at most four times the byte count, which is at most three times the text length, and with `EncodedQuanta` its length is a multiple of 4 |
| `Base64.EncodedQuanta` | pkg/message/message.go:6-7 | the encoding's length is a multiple of 4 |
| `Base64.EncodedChars` | pkg/message/message.go:6-7 | the encoding uses only alphabet and pad characters |
| `Base64.DecodedLength` | internal/core/app.go:134-136 | accepted input (without line breaks) has a length that is a multiple of 4, and gives 3 bytes per quantum minus at most 2 bytes of padding |
| `Base64.StripLineBreaks` | internal/core/app.go:186 | what the decoder sees has no CR or LF and is no longer than the input |
| `Base64.LineBreaksIgnored` | internal/core/app.go:186 | inserting a CR or LF anywhere does not change the result of decoding |
| `Base64.TwoPadUnusedBitsIgnored` | internal/core/app.go:186 | the decoder is not strict: a quantum ending in "==" is accepted, and two such quanta whose second characters agree on their top two bits decode alike |
| `Base64.OnePadUnusedBitsIgnored` | internal/core/app.go:186 | a quantum ending in "=" is accepted, and two such quanta whose third characters agree on their top four bits decode alike |
| `Base64.PaddingBitsIgnored` | internal/core/app.go:186 | an instance of the above: "QQ==" and "QR==" both decode to the single byte 65 |
| `Base64.AcceptedCharacters` | internal/core/app.go:186 | input without line breaks that decodes holds only alphabet characters, except for pad characters in its last two places |
| `Base64.DecodeString` | internal/core/app.go:186 | `StdEncoding.DecodeString`: an accepted text decodes to at most 3 bytes per 4 characters; `DecodeEncodeRoundTrip`, `LineBreaksIgnored` and `AcceptedCharacters` relate it to the encoder and to the input it accepts |
| `Ingest.Start` | internal/core/app.go:159-173 | the loop stops exactly at the first end of stream; read errors and handling errors never stop it; its outcomes are those of the successful reads in read order, and its trace is their effects in order |
| `Ingest.HandledOncePerRecord` | internal/core/app.go:159-173 | there is one outcome per successful read, and the k-th outcome is the handling of the k-th successful read |
| `Ingest.TraceBounded` | internal/core/app.go:170-172 | the trace holds at most one effect per successful read |
| `Scenarios.HelloDecodes` | internal/core/app.go:186 | "aGVsbG8=" decodes to the bytes of "hello" |
| `Scenarios.ImmediateHello` | internal/core/app.go:214-224 | an envelope with no timing fields writes "hello" to the topic of the record read, not to its own "orders" topic |
| `Scenarios.DelayedBy300` | internal/core/app.go:197-198 | `processIn` 300 enqueues once, for 300 seconds after receipt |
| `Scenarios.TenMinutesLateIsDropped` | internal/core/app.go:210-213 | an envelope 600 s late with 300 s of tolerance is dropped without error |
| `Scenarios.WithinToleranceIsWritten` | internal/core/app.go:214-224 | an envelope 200 s late with 300 s of tolerance is written at once |
| `Scenarios.InvalidPayloadRejected` | internal/core/app.go:186-193 | the payload "not-base64!!" gives `CorruptInputError`, with no write and no enqueue |

## Left out

- The Kafka and asynq clients are left out: `NewKafkaWriter`, `NewKafkaReader`, `NewTaskClient`, `NewTaskServer`, `server.Run`, `ReadMessage`, `WriteMessages`, `EnqueueContext` and the `Close` calls. They are network I/O. Their answers are parameters, and their calls are `Effect`s.
- The writer's asynchronous mode and asynq's retry, backoff and dead-letter handling are outside the core and are not modelled.
- `App.Start` runs the consumer in a goroutine beside the task server, which has 10 workers. The model has no concurrency: each loop and handler is modelled alone.
- `json.Unmarshal` and `json.Marshal` belong to a foreign library. Parse results are parameters, and an enqueued task is assumed to reach the handler as it was enqueued.
- The ignored `json.Marshal` error is not modelled.
- `json.Marshal` replaces invalid UTF-8 in header keys and values with U+FFFD. This is not modelled.
- Header keys are Dafny strings, sequences of Unicode scalar values, where Go keys are byte strings. A key that is not valid UTF-8 has no counterpart in the model.
- The `uuid` task IDs are random and are not modelled. An `Enqueue` effect carries no ID, so the model says nothing about ID uniqueness.
- Logging (`internal/core/log.go` and every `logger` call) is not modelled.
- The configuration in `internal/config/config.go` is not part of this model.
- The CLI and wiring in `cmd/root.go` and `cmd/wire.go` are not part of this model.
- Instants are unbounded integers. Go saturates `Time.Add` at ±2^63 seconds, and its monotonic reading can overflow. Neither can happen for a real clock reading, and neither is modelled.
- `Ingest.Start` reads a finite sequence. On a real reader that blocks, the Go loop never ends without an EOF. The model stops when the sequence ends.
- Base64 errors carry no byte offset: every decoding failure is one `CorruptInputError`.
- A Go nil map and an empty map are both the empty map, and a nil slice and an empty slice are both the empty sequence.
- A Go `string` and a `[]byte` are converted into each other without loss. Header values are therefore bytes on both sides.
- The code returns a plain error with the text "the execution time is not set". The model calls it `TimeNotSetError`, and it is unreachable.
