/** The unit of data stored in the log: the caller's record before it is
    committed (a Draft) and the committed Record the log stores and returns. */
module EventRecord {
  import opened Results

  /** Payloads are opaque byte strings. */
  type Bytes = seq<bv8>

  /** Header maps: keys are unique, insertion order is irrelevant. */
  type Headers = map<string, string>

  /** A point in time. The log never inspects it; it is copied unchanged. */
  datatype Timestamp = Timestamp(ticks: int)

  /** A record as a producer hands it to Append. Its offset is whatever the
      caller put there (the log overwrites it) and its headers may be null. */
  datatype Draft = Draft(
    offset: int,
    topic: string,
    payload: Bytes,
    timestamp: Timestamp,
    headers: Option<Headers>)

  /** A committed record: the offset is the one the log assigned and the
      headers are never null. */
  datatype Record = Record(
    offset: int,
    topic: string,
    payload: Bytes,
    timestamp: Timestamp,
    headers: Headers)

  /** `r` carries the caller's content of `d`: topic, payload and timestamp
      unchanged, the caller's headers when present and an empty map when null. */
  ghost predicate KeepsContent(d: Draft, r: Record) {
    && r.topic == d.topic
    && r.payload == d.payload
    && r.timestamp == d.timestamp
    && (d.headers.Some? ==> r.headers == d.headers.value)
    && (d.headers.None? ==> r.headers == map[])
  }

  /** Builds the record Append stores: the caller's content with null headers
      replaced by an empty map, stamped with the given offset. */
  function Commit(d: Draft, offset: int): (r: Record)
    ensures r.offset == offset
    ensures KeepsContent(d, r)
  {
    Record(offset, d.topic, d.payload, d.timestamp, d.headers.GetOr(map[]))
  }
}
