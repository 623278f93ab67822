/**
 * The handler the task server registers for the "main" task type: it turns
 * a due task back into a record and writes it to the task's topic. Parsing
 * the task's JSON and the writer's answer are supplied by the caller: the
 * JSON library and the Kafka writer are outside the model.
 */
module TaskServer {
  import opened Go
  import opened Kafka
  import opened Headers
  import opened Task
  import opened Effects

  /**
   * One execution of a due task. `parsed` is what `json.Unmarshal` made of the
   * task payload; `writeErr` is what the writer reports for the write.
   */
  method HandleTask(parsed: Result<TaskMessage>, writeErr: Option<Error>) returns (out: Outcome)
    ensures parsed.Err? ==> out == Outcome([], Some(parsed.error))
    ensures parsed.Ok? && ToKafkaMessageValue(parsed.value).None? ==> out == Outcome([], Some(CorruptInputError))
    ensures parsed.Ok? && ToKafkaMessageValue(parsed.value).Some? ==>
      && out.err == writeErr
      && |out.effects| == 1
      && out.effects[0].Write?
      && out.effects[0].record.topic == parsed.value.topic
      && out.effects[0].record.value == ToKafkaMessageValue(parsed.value).value
      && IsHeaderListOf(out.effects[0].record.headers, parsed.value.headers)
      && HeadersToMap(out.effects[0].record.headers) == parsed.value.headers
  {
    if parsed.Err? {
      return Outcome([], Some(parsed.error));
    }
    var m := parsed.value;
    var value := ToKafkaMessageValue(m);
    if value.None? {
      return Outcome([], Some(CorruptInputError));
    }
    var headers := ToKafkaHeaders(m);
    out := Outcome([Write(Record(m.topic, value.value, headers))], writeErr);
  }
}
