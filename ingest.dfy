/**
 * `Consumer.start`: read records one after the other and hand each to
 * `handleMessage`, until the reader reports end of stream. The reader's
 * answers are given as a finite sequence, each successful read together with
 * what handling it meets (the JSON decoder's result, the clock reading, and
 * the writer's and client's answers). A sequence that ends without an end of
 * stream stands for a reader that has produced nothing more yet.
 */
module Ingest {
  import opened Go
  import opened GoTime
  import opened Kafka
  import opened Message
  import opened Effects
  import opened Dispatch

  /** What handling a record meets from the world outside the core. */
  datatype Surroundings = Surroundings(
    parsed: Result<DelayMessage>,
    now: Instant,
    writeErr: Option<Error>,
    enqueueErr: Option<Error>)

  datatype ReadOutcome =
    | EndOfStream                          // io.EOF
    | ReadFailed(err: Error)               // any other read error
    | Received(record: Record, env: Surroundings)

  function HandleReceived(r: ReadOutcome): Outcome
    requires r.Received?
  {
    HandleMessage(r.record, r.env.parsed, r.env.now, r.env.writeErr, r.env.enqueueErr)
  }

  /** The outcomes of handling the records read successfully, in read order. */
  function Handled(rs: seq<ReadOutcome>): seq<Outcome>
  {
    if |rs| == 0 then []
    else Handled(rs[..|rs| - 1]) + (if rs[|rs| - 1].Received? then [HandleReceived(rs[|rs| - 1])] else [])
  }

  /** The effects of a sequence of outcomes, one after the other. */
  function Trace(outs: seq<Outcome>): seq<Effect>
  {
    if |outs| == 0 then [] else Trace(outs[..|outs| - 1]) + outs[|outs| - 1].effects
  }

  /** The number of successful reads. */
  function CountReceived(rs: seq<ReadOutcome>): nat
  {
    if |rs| == 0 then 0 else CountReceived(rs[..|rs| - 1]) + (if rs[|rs| - 1].Received? then 1 else 0)
  }

  /**
   * The loop. `stop` is where it stops: at the first end of stream, or after
   * the last answer when there is none. Read errors and handling errors are
   * logged and do not stop it.
   */
  method Start(rs: seq<ReadOutcome>) returns (stop: nat, outcomes: seq<Outcome>, trace: seq<Effect>)
    ensures stop <= |rs|
    ensures forall i :: 0 <= i < stop ==> !rs[i].EndOfStream?
    ensures stop < |rs| ==> rs[stop].EndOfStream?
    ensures outcomes == Handled(rs[..stop])
    ensures trace == Trace(outcomes)
  {
    stop, outcomes, trace := 0, [], [];
    while stop < |rs|
      invariant stop <= |rs|
      invariant forall i :: 0 <= i < stop ==> !rs[i].EndOfStream?
      invariant outcomes == Handled(rs[..stop])
      invariant trace == Trace(outcomes)
    {
      HandledStep(rs, stop);
      match rs[stop]
      case EndOfStream =>
        break;
      case ReadFailed(_) =>
        stop := stop + 1;
      case Received(_, _) =>
        var out := HandleReceived(rs[stop]);
        TraceStep(outcomes, out);
        outcomes := outcomes + [out];
        trace := trace + out.effects;
        stop := stop + 1;
    }
  }

  lemma HandledStep(rs: seq<ReadOutcome>, i: nat)
    requires i < |rs|
    ensures Handled(rs[..i + 1]) == Handled(rs[..i]) + (if rs[i].Received? then [HandleReceived(rs[i])] else [])
  {
    assert rs[..i + 1][..i] == rs[..i];
  }

  lemma TraceStep(outs: seq<Outcome>, out: Outcome)
    ensures Trace(outs + [out]) == Trace(outs) + out.effects
  {
    assert (outs + [out])[..|outs|] == outs;
  }

  /**
   * Every successful read is handled exactly once, in read order: the k-th
   * successful read gives the k-th outcome.
   */
  lemma {:induction false} HandledOncePerRecord(rs: seq<ReadOutcome>, i: nat)
    requires i < |rs| && rs[i].Received?
    ensures |Handled(rs)| == CountReceived(rs)
    ensures CountReceived(rs[..i]) < |Handled(rs)|
    ensures Handled(rs)[CountReceived(rs[..i])] == HandleReceived(rs[i])
  {
    var init := rs[..|rs| - 1];
    if i == |rs| - 1 {
      HandledLength(init);
      assert rs[..i] == init;
    } else {
      assert init[i] == rs[i] && init[..i] == rs[..i];
      HandledOncePerRecord(init, i);
    }
  }

  lemma {:induction false} HandledLength(rs: seq<ReadOutcome>)
    ensures |Handled(rs)| == CountReceived(rs)
  {
    if |rs| > 0 {
      HandledLength(rs[..|rs| - 1]);
    }
  }

  /** The trace holds at most one effect per successful read. */
  lemma {:induction false} TraceBounded(rs: seq<ReadOutcome>)
    ensures |Trace(Handled(rs))| <= CountReceived(rs)
  {
    if |rs| > 0 {
      var init := rs[..|rs| - 1];
      TraceBounded(init);
      var outs := Handled(rs);
      if rs[|rs| - 1].Received? {
        assert outs[..|outs| - 1] == Handled(init);
      } else {
        assert outs == Handled(init);
      }
    }
  }
}
