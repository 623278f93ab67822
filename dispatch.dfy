/**
 * `Consumer.handleMessage`: validate an envelope read from the delay topic,
 * resolve its process time, and either drop it, write its payload at once, or
 * enqueue a task that writes it at the process time. The clock reading `now`,
 * the JSON decoder's result and the answers of the Kafka writer and of the
 * asynq client are parameters; the function returns the effects it causes
 * and the error it returns.
 */
module Dispatch {
  import opened Go
  import opened GoTime
  import opened Kafka
  import opened Headers
  import opened Message
  import opened Task
  import opened Effects
  import Base64

  /** The process time: `processIn` seconds after `now`, else the instant of `processAt`, else `now`. */
  function ProcessTime(msg: DelayMessage, now: Instant): (at: Instant)
    ensures msg.processIn > 0 ==> at > now
    ensures msg.processIn <= 0 && msg.processAt > 0 ==> at == Unix(msg.processAt)
    ensures msg.processIn <= 0 && msg.processAt <= 0 ==> at == now
  {
    if msg.processIn > 0 then AddSeconds(now, msg.processIn)
    else if msg.processAt > 0 then Unix(msg.processAt)
    else now
  }

  /** The earliest process time still executed: `now.Add(time.Duration(-msg.ToleranceSecond) * time.Second)`, negated in int32. */
  function ToleranceBound(msg: DelayMessage, now: Instant): (bound: Instant)
    ensures msg.toleranceSecond != MinInt32 ==> now - bound == msg.toleranceSecond as int * NanosPerSecond
    ensures msg.toleranceSecond == MinInt32 ==> now - bound == -(MinInt32 as int) * NanosPerSecond
    ensures msg.toleranceSecond >= 0 || msg.toleranceSecond == MinInt32 ==> bound <= now
  {
    AddSeconds(now, Neg32(msg.toleranceSecond))
  }

  datatype Decision =
    | NotSet                 // the process time is the zero Time
    | Drop                   // too late: ignored
    | Immediate              // due: written at once
    | Delayed(at: Instant)   // not yet due: enqueued for `at`

  /** The timing branch `handleMessage` takes, in its order of tests. */
  function Decide(msg: DelayMessage, now: Instant): (d: Decision)
    ensures d == NotSet <==> ProcessTime(msg, now) == ZeroTime
    ensures d == Drop ==> ProcessTime(msg, now) < ToleranceBound(msg, now)
    ensures d == Immediate ==> ToleranceBound(msg, now) <= ProcessTime(msg, now) <= now
    ensures d.Delayed? ==> d.at == ProcessTime(msg, now) > now
  {
    var at := ProcessTime(msg, now);
    if at == ZeroTime then NotSet
    else if at < ToleranceBound(msg, now) then Drop
    else if at <= now then Immediate
    else Delayed(at)
  }

  /** The task enqueued for an envelope read in record `m`. */
  function TaskFor(m: Record, msg: DelayMessage): (t: TaskMessage)
    ensures t.topic == msg.topic && t.body == msg.payload
    ensures forall i :: 0 <= i < |m.headers| ==> m.headers[i].key in t.headers
    ensures |t.headers| <= |m.headers|
  {
    TaskMessage(msg.topic, msg.payload, HeadersToMap(m.headers))
  }

  /**
   * `handleMessage` for record `m`. `parsed` is what `json.Unmarshal` made of
   * `m.value`; `writeErr` and `enqueueErr` are what the writer and the client
   * report if they are called.
   */
  function HandleMessage(m: Record, parsed: Result<DelayMessage>, now: Instant,
                         writeErr: Option<Error>, enqueueErr: Option<Error>): (out: Outcome)
    ensures |out.effects| <= 1
    ensures |out.effects| == 1 ==> parsed.Ok? && Base64.DecodeString(parsed.value.payload).Some?
  {
    match parsed
    case Err(e) => Outcome([], Some(e))
    case Ok(msg) =>
      match Base64.DecodeString(msg.payload)
      case None => Outcome([], Some(CorruptInputError))
      case Some(value) =>
        match Decide(msg, now)
        case NotSet => Outcome([], Some(TimeNotSetError))
        case Drop => Outcome([], None)
        case Immediate => Outcome([Write(Record(m.topic, value, m.headers))], writeErr)
        case Delayed(at) => Outcome([Enqueue(TaskTypeName, TaskFor(m, msg), at)], enqueueErr)
  }

  // ---------------------------------------------------------------- time resolution

  /**
   * The process time, case by case: a positive `processIn` is a delay after
   * `now`, whatever `processAt` says; otherwise a positive `processAt` is the
   * instant of that Unix second (when it is representable); otherwise `now`.
   */
  lemma ProcessTimeResolution(msg: DelayMessage, now: Instant)
    ensures msg.processIn > 0 ==> ProcessTime(msg, now) - now == msg.processIn as int * NanosPerSecond > 0
    ensures msg.processIn <= 0 && 0 < msg.processAt as int <= MaxInt64 - UnixToInternal ==>
      ProcessTime(msg, now) == msg.processAt as int * NanosPerSecond > 0
    ensures msg.processIn <= 0 && msg.processAt <= 0 ==> ProcessTime(msg, now) == now
  {
  }

  /** `processAt` is consulted only when `processIn` is not set: with `processIn` positive, no value of it changes anything. */
  lemma ProcessInOverridesProcessAt(m: Record, msg: DelayMessage, processAt: int64, now: Instant,
                                   writeErr: Option<Error>, enqueueErr: Option<Error>)
    requires msg.processIn > 0
    ensures Decide(msg.(processAt := processAt), now) == Decide(msg, now)
    ensures HandleMessage(m, Ok(msg.(processAt := processAt)), now, writeErr, enqueueErr).effects
         == HandleMessage(m, Ok(msg), now, writeErr, enqueueErr).effects
  {
  }

  /** `processIn` is relative to the time of receipt: receiving later moves the process time by as much. */
  lemma ProcessInIsRelative(msg: DelayMessage, now: Instant, later: nat)
    requires now > ZeroTime && msg.processIn > 0
    ensures ProcessTime(msg, now + later) == ProcessTime(msg, now) + later
    ensures Decide(msg, now + later) == Drop <==> Decide(msg, now) == Drop
  {
    ExecutionTimeAlwaysSet(Record([], [], []), msg, now, None, None);
    ExecutionTimeAlwaysSet(Record([], [], []), msg, now + later, None, None);
  }

  /**
   * The "execution time is not set" branch is dead: for any clock reading
   * after the zero Time, no envelope resolves to the zero Time, including a
   * `processAt` large enough to wrap in `time.Unix`.
   */
  lemma ExecutionTimeAlwaysSet(m: Record, msg: DelayMessage, now: Instant,
                               writeErr: Option<Error>, enqueueErr: Option<Error>)
    requires now > ZeroTime
    ensures ProcessTime(msg, now) != ZeroTime
    ensures Decide(msg, now) != NotSet
    ensures HandleMessage(m, Ok(msg), now, writeErr, enqueueErr) != Outcome([], Some(TimeNotSetError))
  {
    if msg.processIn <= 0 && msg.processAt > 0 {
      var sec := msg.processAt as int;
      if sec > MaxInt64 - UnixToInternal {
        assert ProcessTime(msg, now) == (sec - TwoTo64) * NanosPerSecond;
        assert sec - TwoTo64 < -UnixToInternal;
      }
    }
    assert ProcessTime(msg, now) != ZeroTime;
    assert Decide(msg, now) != NotSet;
  }

  // ---------------------------------------------------------------- classification

  /** The three outcomes of the decision, each as a condition on the process time; exactly one holds. */
  lemma DecisionBoundaries(msg: DelayMessage, now: Instant)
    requires now > ZeroTime
    ensures Decide(msg, now) == Drop <==> ProcessTime(msg, now) < ToleranceBound(msg, now)
    ensures Decide(msg, now) == Immediate <==> ToleranceBound(msg, now) <= ProcessTime(msg, now) <= now
    ensures Decide(msg, now).Delayed? <==> ToleranceBound(msg, now) <= ProcessTime(msg, now) && now < ProcessTime(msg, now)
    ensures Decide(msg, now).Delayed? ==> Decide(msg, now).at == ProcessTime(msg, now)
  {
    ExecutionTimeAlwaysSet(Record([], [], []), msg, now, None, None);
  }

  /** A process time exactly at the tolerance bound is not dropped. */
  lemma DropBoundaryExclusive(msg: DelayMessage, now: Instant)
    requires now > ZeroTime
    requires ProcessTime(msg, now) == ToleranceBound(msg, now)
    ensures Decide(msg, now) != Drop
  {
    DecisionBoundaries(msg, now);
  }

  // ---------------------------------------------------------------- handling

  /**
   * Validation comes first: an envelope that does not parse, or whose payload
   * is not valid base64, yields an error and no effect, whatever its timing
   * fields say.
   */
  lemma ValidationFirst(m: Record, parsed: Result<DelayMessage>, now: Instant,
                        writeErr: Option<Error>, enqueueErr: Option<Error>)
    requires parsed.Err? || Base64.DecodeString(parsed.value.payload).None?
    ensures HandleMessage(m, parsed, now, writeErr, enqueueErr).effects == []
    ensures parsed.Err? ==> HandleMessage(m, parsed, now, writeErr, enqueueErr).err == Some(parsed.error)
    ensures parsed.Ok? ==> HandleMessage(m, parsed, now, writeErr, enqueueErr).err == Some(CorruptInputError)
  {
  }

  /** A dropped envelope causes nothing and is not an error. */
  lemma DropIsSilent(m: Record, msg: DelayMessage, now: Instant,
                     writeErr: Option<Error>, enqueueErr: Option<Error>)
    requires now > ZeroTime
    requires Base64.DecodeString(msg.payload).Some?
    requires ProcessTime(msg, now) < ToleranceBound(msg, now)
    ensures HandleMessage(m, Ok(msg), now, writeErr, enqueueErr) == Outcome([], None)
  {
    DecisionBoundaries(msg, now);
  }

  /**
   * A due envelope is written once, with no enqueue: the decoded payload and
   * the record's own headers, to the topic of the record just read (not the
   * envelope's topic); the writer's error is returned.
   */
  lemma ImmediateWritesOnce(m: Record, msg: DelayMessage, now: Instant,
                            writeErr: Option<Error>, enqueueErr: Option<Error>)
    requires now > ZeroTime
    requires Base64.DecodeString(msg.payload).Some?
    requires ToleranceBound(msg, now) <= ProcessTime(msg, now) <= now
    ensures HandleMessage(m, Ok(msg), now, writeErr, enqueueErr)
         == Outcome([Write(Record(m.topic, Base64.DecodeString(msg.payload).value, m.headers))], writeErr)
  {
    DecisionBoundaries(msg, now);
  }

  /**
   * An envelope not yet due is enqueued once, with no write, for exactly its
   * process time, as a task carrying the envelope's topic, its payload text
   * unchanged, and the record's headers as a map; the client's error is
   * returned.
   */
  lemma DelayedEnqueuesOnce(m: Record, msg: DelayMessage, now: Instant,
                            writeErr: Option<Error>, enqueueErr: Option<Error>)
    requires now > ZeroTime
    requires Base64.DecodeString(msg.payload).Some?
    requires now < ProcessTime(msg, now) && ToleranceBound(msg, now) <= ProcessTime(msg, now)
    ensures HandleMessage(m, Ok(msg), now, writeErr, enqueueErr)
         == Outcome([Enqueue(TaskTypeName, TaskMessage(msg.topic, msg.payload, HeadersToMap(m.headers)),
                             ProcessTime(msg, now))], enqueueErr)
  {
    DecisionBoundaries(msg, now);
  }

  /**
   * What the task handler writes when an enqueued task runs is what the
   * immediate branch would have written, apart from the topic and the header
   * order: the body decodes to the same bytes, the topic is the envelope's,
   * and the headers form the same map.
   */
  lemma DelayedDeliveryFidelity(m: Record, msg: DelayMessage, now: Instant,
                                writeErr: Option<Error>, enqueueErr: Option<Error>)
    requires HandleMessage(m, Ok(msg), now, writeErr, enqueueErr).effects != []
    requires HandleMessage(m, Ok(msg), now, writeErr, enqueueErr).effects[0].Enqueue?
    ensures var e := HandleMessage(m, Ok(msg), now, writeErr, enqueueErr).effects[0];
      && e.typeName == TaskTypeName
      && e.at == ProcessTime(msg, now) && e.at > now
      && ToKafkaMessageValue(e.task) == Base64.DecodeString(msg.payload)
      && ToKafkaMessageValue(e.task).Some?
      && e.task.topic == msg.topic
      && forall hs :: IsHeaderListOf(hs, e.task.headers) ==> HeadersToMap(hs) == HeadersToMap(m.headers)
  {
    var e := HandleMessage(m, Ok(msg), now, writeErr, enqueueErr).effects[0];
    forall hs | IsHeaderListOf(hs, e.task.headers)
      ensures HeadersToMap(hs) == HeadersToMap(m.headers)
    {
      HeaderListRoundTrip(hs, e.task.headers);
    }
  }

  /**
   * `time.Unix` wraps for a `processAt` within 62135596800 seconds of the
   * int64 maximum: such an envelope lands in the far past and is dropped
   * instead of being delayed.
   */
  lemma FarFutureProcessAtIsDropped(msg: DelayMessage, now: Instant)
    requires now > ZeroTime
    requires msg.processIn <= 0 && msg.processAt as int > MaxInt64 - UnixToInternal
    ensures Decide(msg, now) == Drop
  {
    assert ProcessTime(msg, now) == (msg.processAt as int - TwoTo64) * NanosPerSecond;
  }
}
