/** The content of a cache file and the checks a reader makes on it. */
module CacheValues {
  import opened Wrappers
  import opened Text

  const MAX_CACHE_BYTES: nat := 2 * 1024 * 1024

  datatype Json =
    | Null
    | Bool(value: bool)
    | Number(digits: string)
    | String(text: string)
    | Array(items: seq<Json>)
    | Object(fields: seq<(string, Json)>)

  datatype Envelope = Envelope(schemaVersion: nat, service: string, savedAt: string, payload: Json)

  /** The bytes of a file, as far as a reader can tell them apart. */
  datatype Body = NotJson | NotEnvelope | Enveloped(envelope: Envelope)

  datatype Content = Content(size: nat, body: Body)

  /** The reader of one cache: schema, service, and which payloads its type accepts. */
  datatype Reader = Reader(schemaVersion: nat, service: string, accepts: Json -> bool)

  datatype CacheError =
    | Io(operation: string)
    | Deserialize
    | InvalidEnvelope(message: string)
    | SchemaVersionMismatch
    | ServiceMismatch
    | EmptyPayload
    | TemporaryFileExhausted

  /** `is_empty_payload`. */
  predicate IsEmptyPayload(payload: Json) {
    match payload
    case Null => true
    case String(text) => Trim(text) == ""
    case Array(items) => items == []
    case Object(fields) => fields == []
    case Bool(_) => false
    case Number(_) => false
  }

  predicate SizeSupported(size: nat) {
    0 < size <= MAX_CACHE_BYTES
  }

  /** Why a reader rejects the bytes it loaded, in the order of its checks; `None` when it accepts. */
  function BodyRejection(reader: Reader, body: Body): (rejection: Option<CacheError>)
    ensures rejection.Some? ==> !rejection.value.Io?
    ensures rejection.None? ==> body.Enveloped? && !IsEmptyPayload(body.envelope.payload)
  {
    match body
    case NotJson => Some(Deserialize)
    case NotEnvelope => Some(Deserialize)
    case Enveloped(envelope) =>
      if envelope.schemaVersion != reader.schemaVersion then Some(SchemaVersionMismatch)
      else if envelope.service != reader.service then Some(ServiceMismatch)
      else if ParseUnsigned(envelope.savedAt, 10, U128_LIMIT).None? then Some(InvalidEnvelope("saved_at"))
      else if IsEmptyPayload(envelope.payload) then Some(EmptyPayload)
      else if !reader.accepts(envelope.payload) then Some(Deserialize)
      else None
  }

  predicate Stamped(envelope: Envelope) {
    ParseUnsigned(envelope.savedAt, 10, U128_LIMIT).Some?
  }

  /** The payloads that count as nothing: numbers and booleans never do. */
  predicate Blank(payload: Json) {
    payload == Null || payload == Array([]) || payload == Object([]) || (payload.String? && Trim(payload.text) == "")
  }

  /** Which body is accepted, and which of its faults a rejection names. */
  lemma RejectionExactly(reader: Reader, body: Body)
    ensures var r := BodyRejection(reader, body);
            if !body.Enveloped? then r == Some(Deserialize)
            else
              var e := body.envelope;
              var ours, stamped := e.schemaVersion == reader.schemaVersion, Stamped(e);
              && (r == Some(SchemaVersionMismatch) <==> !ours)
              && (r == Some(ServiceMismatch) <==> ours && e.service != reader.service)
              && (r == Some(InvalidEnvelope("saved_at")) <==> ours && e.service == reader.service && !stamped)
              && (r == Some(EmptyPayload) <==> ours && e.service == reader.service && stamped && Blank(e.payload))
              && (r == Some(Deserialize) <==>
                    ours && e.service == reader.service && stamped && !Blank(e.payload) && !reader.accepts(e.payload))
              && (r == None <==>
                    ours && e.service == reader.service && stamped && !Blank(e.payload) && reader.accepts(e.payload))
  {
    hide ParseUnsigned;
  }

  /** Why a reader rejects a content: its size first. */
  function Rejection(reader: Reader, content: Content): Option<CacheError> {
    if !SizeSupported(content.size) then Some(InvalidEnvelope("size")) else BodyRejection(reader, content.body)
  }

  /** The envelope `write_inner` builds: the time is rendered in decimal. */
  function WrittenEnvelope(reader: Reader, millis: nat, payload: Json): Envelope {
    Envelope(reader.schemaVersion, reader.service, Decimal(millis), payload)
  }

  /**
   Every content a write may install passes every check of a reader of the same
   schema and service; only the reader's own payload type can still refuse it.
   */
  lemma WrittenContentIsReadable(writer: Reader, reader: Reader, millis: nat, payload: Json, size: nat)
    requires writer.schemaVersion == reader.schemaVersion && writer.service == reader.service
    requires !IsEmptyPayload(payload) && SizeSupported(size) && millis < U128_LIMIT
    ensures Rejection(reader, Content(size, Enveloped(WrittenEnvelope(writer, millis, payload)))) ==
            if reader.accepts(payload) then None else Some(Deserialize)
  {
    hide IsEmptyPayload, ParseUnsigned, Decimal;
    ParseOfDecimal(millis, U128_LIMIT);
  }
}
