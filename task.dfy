/**
 * The scheduled task (`TaskMessage`): destination topic, the envelope's
 * base64 payload kept as text, and the source record's headers as a map;
 * and its conversions back into the parts of an outgoing record.
 */
module Task {
  import opened Go
  import opened Kafka
  import opened Headers
  import Base64

  /** The asynq task type under which tasks are enqueued and the handler is registered. */
  const TaskTypeName: string := "main"

  datatype TaskMessage = TaskMessage(topic: string, body: string, headers: HeaderMap)

  /** `ToKafkaMessageValue`: the standard base64 decoding of the body; `None` is a `CorruptInputError`. */
  function ToKafkaMessageValue(t: TaskMessage): (r: Option<Bytes>)
    ensures r.Some? ==> 4 * |r.value| <= 3 * |t.body|
  {
    Base64.DecodeString(t.body)
  }

  /**
   * `ToKafkaHeaders`: one header per map entry, in the (unspecified) order in
   * which Go ranges over the map; an empty map gives no headers.
   */
  method ToKafkaHeaders(t: TaskMessage) returns (hs: seq<Header>)
    ensures IsHeaderListOf(hs, t.headers)
    ensures HeadersToMap(hs) == t.headers
  {
    if |t.headers| == 0 {
      return [];
    }
    hs := [];
    var rest := t.headers.Keys;
    while rest != {}
      invariant rest <= t.headers.Keys
      invariant |hs| + |rest| == |t.headers|
      invariant forall i :: 0 <= i < |hs| ==> hs[i].key in t.headers && hs[i].key !in rest && t.headers[hs[i].key] == hs[i].value
      invariant forall i, j :: 0 <= i < j < |hs| ==> hs[i].key != hs[j].key
      decreases |rest|
    {
      var k :| k in rest;
      hs := hs + [Header(k, t.headers[k])];
      rest := rest - {k};
    }
    HeaderListRoundTrip(hs, t.headers);
  }
}
