/** The parts of kafka-go's `Message` and `Header` that the relay reads and writes. */
module Kafka {
  import opened Go

  datatype Header = Header(key: string, value: Bytes)

  /** A record read from, or written to, a topic. */
  datatype Record = Record(topic: string, value: Bytes, headers: seq<Header>)
}
