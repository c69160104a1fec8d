/**
 What a cache file is to its users: a register that holds an optional content. Each
 operation, whole or cut short, is one step of it.
 */
module CacheRegister {
  import opened Wrappers
  import opened CacheValues

  /** What a file holds: an interrupted write, or one whole content, possibly unsynced. */
  datatype Data = Torn | Whole(content: Content, synced: bool)

  /** What is at the cache path. */
  datatype Entry = Absent | Irregular | File(data: Data)

  /** What a crash leaves: the entry at the cache path and the temporary files. */
  datatype Snapshot = Snapshot(entry: Entry, temps: map<nat, Data>)

  datatype Op = Read(reader: Reader) | Probe | Write(content: Content) | Clear

  type Outcome = Result<Option<Envelope>, CacheError>

  /** A write and a clear return no envelope. */
  function Unit(r: Result<(), CacheError>): Outcome {
    if r.Ok? then Ok(None) else Err(r.error)
  }

  /**
   One step of a register that holds an optional content: what each operation may
   return, and leave, given what it found. A crash may return nothing at any point.
   */
  ghost predicate Legal(op: Op, before: Entry, after: Entry, outcome: Option<Outcome>) {
    match op
    case Read(reader) =>
      && (after == before ||
          // A reader deletes what it found, and only after rejecting that very content.
          (before.File? && before.data.Whole? && Rejection(reader, before.data.content).Some? && after == Absent))
      && (outcome.Some? ==>
            match outcome.value
            case Ok(None) => before == Absent
            case Ok(Some(envelope)) =>
              && after == before && before.File? && before.data.Whole?
              && Rejection(reader, before.data.content) == None
              && before.data.content.body == Enveloped(envelope)
            case Err(error) =>
              || (error.Io? && after == before)
              || (before.Irregular? && after == before)
              || (before.File? && before.data.Whole? && Rejection(reader, before.data.content) == Some(error)))
    case Probe =>
      && after == before
      && (outcome.Some? && outcome.value.Ok? ==>
            match outcome.value.value
            case None => before == Absent
            case Some(envelope) =>
              before.File? && before.data.Whole? && before.data.content.body == Enveloped(envelope))
    case Write(content) =>
      && (after == before || (after == File(Whole(content, true)) && !before.Irregular? &&
          content.size <= MAX_CACHE_BYTES))
      && (outcome.Some? && outcome.value.Ok? ==> after == File(Whole(content, true)))
    case Clear =>
      && (after == before || (after == Absent && !before.Irregular?))
      && (outcome.Some? && outcome.value.Ok? ==> after == Absent)
  }
}
