/** Worked examples of the dispatch decision, on concrete envelopes. `t` is a clock reading in whole seconds. */
module Scenarios {
  import opened Go
  import opened GoTime
  import opened Kafka
  import opened Message
  import opened Effects
  import opened Dispatch
  import Base64

  lemma HelloLastQuantum()
    ensures Base64.DecodeQuanta("bG8=") == Some([108, 111])
  {
    var tail := "bG8=";
    assert tail[2] != Base64.Pad && !Base64.IsAlphabetChar(tail[3]);
    assert Base64.CharToSextet('b') == 27 && Base64.CharToSextet('G') == 6 && Base64.CharToSextet('8') == 60;
    assert Base64.QuantumBytes(27, 6, 60, 0)[..2] == [108, 111];
  }

  lemma HelloFirstQuantum()
    ensures Base64.QuantumBytes(Base64.CharToSextet('a'), Base64.CharToSextet('G'), Base64.CharToSextet('V'), Base64.CharToSextet('s'))
         == [104, 101, 108]
  {
    assert Base64.CharToSextet('a') == 26 && Base64.CharToSextet('G') == 6;
    assert Base64.CharToSextet('V') == 21 && Base64.CharToSextet('s') == 44;
  }

  lemma HelloQuanta()
    ensures Base64.DecodeQuanta("aGVsbG8=") == Some([104, 101, 108, 108, 111])
  {
    HelloFirstQuantum();
    HelloLastQuantum();
    Base64.DecodeQuantaCons("aGVs", "bG8=");
    assert "aGVs" + "bG8=" == "aGVsbG8=";
    assert [104, 101, 108] + [108, 111] == [104, 101, 108, 108, 111];
  }

  /** "aGVsbG8=" is the base64 text of the bytes of "hello". */
  lemma HelloDecodes()
    ensures Base64.DecodeString("aGVsbG8=") == Some([104, 101, 108, 108, 111])
  {
    Base64.StripLineBreaksNoop("aGVsbG8=");
    HelloQuanta();
  }

  /**
   * No timing fields: processed at once. The payload is written decoded, to
   * the topic of the record read, not to the envelope's "orders".
   */
  lemma ImmediateHello(m: Record, t: nat, writeErr: Option<Error>, enqueueErr: Option<Error>)
    ensures HandleMessage(m, Ok(DelayMessage("orders", "aGVsbG8=", 0, 0, 0)), t * NanosPerSecond, writeErr, enqueueErr)
         == Outcome([Write(Record(m.topic, [104, 101, 108, 108, 111], m.headers))], writeErr)
  {
    HelloDecodes();
  }

  /** `processIn` 300: enqueued for 300 seconds after receipt, nothing written. */
  lemma DelayedBy300(m: Record, t: nat, writeErr: Option<Error>, enqueueErr: Option<Error>)
    ensures var out := HandleMessage(m, Ok(DelayMessage("orders", "aGVsbG8=", 300, 0, 0)), t * NanosPerSecond, writeErr, enqueueErr);
      && |out.effects| == 1
      && out.effects[0].Enqueue?
      && out.effects[0].at == (t + 300) * NanosPerSecond
      && out.err == enqueueErr
  {
    var msg := DelayMessage("orders", "aGVsbG8=", 300, 0, 0);
    HelloDecodes();
    assert ProcessTime(msg, t * NanosPerSecond) == (t + 300) * NanosPerSecond;
    DelayedEnqueuesOnce(m, msg, t * NanosPerSecond, writeErr, enqueueErr);
  }

  /** Ten minutes late with five minutes of tolerance: dropped, silently. */
  lemma TenMinutesLateIsDropped(m: Record, t: nat, writeErr: Option<Error>, enqueueErr: Option<Error>)
    requires 600 < t <= MaxInt64 - UnixToInternal
    ensures HandleMessage(m, Ok(DelayMessage("orders", "aGVsbG8=", 0, (t - 600) as int64, 300)), t * NanosPerSecond, writeErr, enqueueErr)
         == Outcome([], None)
  {
    var msg := DelayMessage("orders", "aGVsbG8=", 0, (t - 600) as int64, 300);
    HelloDecodes();
    assert ProcessTime(msg, t * NanosPerSecond) == (t - 600) * NanosPerSecond;
    DropIsSilent(m, msg, t * NanosPerSecond, writeErr, enqueueErr);
  }

  /** Two hundred seconds late with five minutes of tolerance: processed at once. */
  lemma WithinToleranceIsWritten(m: Record, t: nat, writeErr: Option<Error>, enqueueErr: Option<Error>)
    requires 200 < t <= MaxInt64 - UnixToInternal
    ensures HandleMessage(m, Ok(DelayMessage("orders", "aGVsbG8=", 0, (t - 200) as int64, 300)), t * NanosPerSecond, writeErr, enqueueErr)
         == Outcome([Write(Record(m.topic, [104, 101, 108, 108, 111], m.headers))], writeErr)
  {
    var msg := DelayMessage("orders", "aGVsbG8=", 0, (t - 200) as int64, 300);
    HelloDecodes();
    assert ProcessTime(msg, t * NanosPerSecond) == (t - 200) * NanosPerSecond;
    ImmediateWritesOnce(m, msg, t * NanosPerSecond, writeErr, enqueueErr);
  }

  lemma NotBase64Quanta()
    ensures Base64.DecodeQuanta("not-base64!!") == None
  {
    var s := "not-base64!!";
    assert !Base64.IsAlphabetChar(s[3]);
  }

  lemma NotBase64()
    ensures Base64.DecodeString("not-base64!!") == None
  {
    Base64.StripLineBreaksNoop("not-base64!!");
    NotBase64Quanta();
  }

  /** A payload that is not base64: an error, and neither a write nor an enqueue. */
  lemma InvalidPayloadRejected(m: Record, now: Instant, writeErr: Option<Error>, enqueueErr: Option<Error>)
    ensures HandleMessage(m, Ok(DelayMessage("orders", "not-base64!!", 0, 0, 0)), now, writeErr, enqueueErr)
         == Outcome([], Some(CorruptInputError))
  {
    NotBase64();
    ValidationFirst(m, Ok(DelayMessage("orders", "not-base64!!", 0, 0, 0)), now, writeErr, enqueueErr);
  }
}
