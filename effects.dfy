/**
 * The observable side effects of the core, as an abstract trace: a record
 * handed to the Kafka writer, or a task handed to the asynq client to run at
 * a given time. An effect is recorded when the call is made, whatever the
 * call then reports.
 */
module Effects {
  import opened Go
  import opened GoTime
  import opened Kafka
  import opened Task

  datatype Effect =
    | Write(record: Record)
    | Enqueue(typeName: string, task: TaskMessage, at: Instant)

  /** What handling one message or one task does: the effects, in order, and the error it returns. */
  datatype Outcome = Outcome(effects: seq<Effect>, err: Option<Error>)
}
