/**
 One cache file on a disk whose operations may fail: the critical sections of a
 write, a read, a probe and a clear, step by step.

 Every step records what a crash at that point would leave behind.
 */
module CacheFiles {
  import opened Wrappers
  import opened Text
  import opened CacheValues
  import opened CacheRegister

  /** Which operations of the system succeed during one write. */
  datatype WriteFaults = WriteFaults(
    directory: bool, stat: bool, create: bool, write: bool, sync: bool,
    rename: bool, chmod: bool, syncDirectory: bool, cleanup: bool)

  datatype ReadFaults = ReadFaults(stat: bool, chmod: bool, read: bool, removeStat: bool, remove: bool)

  const TEMP_ATTEMPTS: nat := 64

  class Disk {
    var entry: Entry
    var temps: map<nat, Data>
    /** Every state since the disk was created, one for each step. */
    ghost var trail: seq<Snapshot>

    constructor (entry: Entry)
      ensures this.entry == entry && temps == map[] && trail == []
    {
      this.entry := entry;
      temps := map[];
      trail := [];
    }

    /** A file at the path is whole: no write ever leaves a torn one there. */
    ghost predicate Intact()
      reads this
    {
      entry.File? ==> entry.data.Whole?
    }

    ghost function Now(): Snapshot
      reads this
    {
      Snapshot(entry, temps)
    }

    /** `reject_non_regular_target`. */
    method RejectIrregular(statOk: bool) returns (r: Result<(), CacheError>)
      ensures r == if !statOk then Err(Io("stat cache target"))
                   else if entry.Irregular? then Err(InvalidEnvelope("not a regular file"))
                   else Ok(())
    {
      if !statOk {
        return Err(Io("stat cache target"));
      }
      return if entry.Irregular? then Err(InvalidEnvelope("not a regular file")) else Ok(());
    }

    /** `create_temporary_file`: the first of 64 candidate names that is not taken. */
    method CreateTemporary(candidates: seq<nat>, createOk: bool) returns (r: Result<nat, CacheError>)
      requires |candidates| == TEMP_ATTEMPTS
      modifies this`temps, this`trail
      ensures r.Ok? ==> r.value in candidates && r.value !in old(temps) && temps == old(temps)[r.value := Torn]
      ensures r.Err? ==> temps == old(temps)
      ensures r == Err(TemporaryFileExhausted) <==> forall c | c in candidates :: c in old(temps)
      ensures r.Ok? <==> createOk && exists c :: c in candidates && c !in old(temps)
      ensures trail == old(trail) + if r.Ok? then [Now()] else []
    {
      for attempt := 0 to TEMP_ATTEMPTS
        invariant temps == old(temps) && trail == old(trail)
        invariant forall k | 0 <= k < attempt :: candidates[k] in temps
      {
        if candidates[attempt] in temps {
          continue;
        }
        assert candidates[attempt] in candidates;
        if !createOk {
          return Err(Io("create temporary cache"));
        }
        temps := temps[candidates[attempt] := Torn];
        trail := trail + [Now()];
        return Ok(candidates[attempt]);
      }
      return Err(TemporaryFileExhausted);
    }

    /** `write_atomically`, with the clean-up its guard performs on the way out. */
    method WriteAtomically(
          content: Content, candidates: seq<nat>, faults: WriteFaults) returns (r: Result<(), CacheError>)
      requires |candidates| == TEMP_ATTEMPTS
      modifies this
      // The target is the old entry or the complete new content, whatever the return ...
      ensures r.Ok? ==> entry == File(Whole(content, true))
      ensures r.Err? ==> entry == old(entry) || entry == File(Whole(content, true))
      ensures old(Intact()) ==> Intact()
      // ... and at every point a crash could hit.
      ensures old(trail) <= trail
      ensures forall k | |old(trail)| <= k < |trail| ::
                trail[k].entry == old(entry) || trail[k].entry == File(Whole(content, true))
      // No temporary file is left if the clean-up works, and never one after success.
      ensures r.Ok? || faults.cleanup ==> temps == old(temps)
      ensures old(temps).Keys <= temps.Keys && forall t | t in old(temps) :: temps[t] == old(temps)[t]
      ensures Legal(Op.Write(content), old(entry), entry, Some(Unit(r)))
      // Exactly when a write succeeds.
      ensures r.Ok? <==>
        && content.size <= MAX_CACHE_BYTES && faults.directory && faults.stat && !old(entry).Irregular?
        && (exists c :: c in candidates && c !in old(temps)) && faults.create && faults.write && faults.sync &&
            faults.rename
        && faults.chmod && faults.syncDirectory
      // The new content is in place after an error only when the rename had already happened.
      ensures r.Err? && entry != old(entry) ==> faults.rename && !(faults.chmod && faults.syncDirectory)
    {
      if content.size > MAX_CACHE_BYTES {
        return Err(InvalidEnvelope("payload exceeds the supported size"));
      }
      if !faults.directory {
        return Err(Io("create cache directory"));
      }
      r := RejectIrregular(faults.stat);
      if r.Err? {
        return;
      }
      var created := CreateTemporary(candidates, faults.create);
      if created.Err? {
        return Err(created.error);
      }
      var temp := created.value;
      var armed := true;
      r := FillAndInstall(temp, content, faults);
      if r.Ok? {
        armed := false;
      }
      if armed && faults.cleanup {
        temps := temps - {temp};
        trail := trail + [Now()];
      }
      assert temps - {temp} == old(temps);
    }

    /** The fallible middle part: write, sync, rename, chmod, sync the directory. */
    method FillAndInstall(temp: nat, content: Content, faults: WriteFaults) returns (r: Result<(), CacheError>)
      requires temp in temps
      modifies this
      ensures old(trail) <= trail
      ensures forall k | |old(trail)| <= k < |trail| ::
                trail[k].entry == old(entry) || trail[k].entry == File(Whole(content, true))
      ensures entry == if faults.write && faults.sync && faults.rename then File(Whole(content, true)) else old(entry)
      ensures temps - {temp} == old(temps) - {temp}
      ensures temp in temps <==> !(faults.write && faults.sync && faults.rename)
      ensures r.Ok? <==> faults.write && faults.sync && faults.rename && faults.chmod && faults.syncDirectory
    {
      if !faults.write {
        return Err(Io("write temporary cache"));
      }
      temps := temps[temp := Whole(content, false)];
      trail := trail + [Now()];
      if !faults.sync {
        return Err(Io("sync temporary cache"));
      }
      temps := temps[temp := Whole(content, true)];
      trail := trail + [Now()];
      if !faults.rename {
        return Err(Io("rename temporary cache"));
      }
      entry, temps := File(temps[temp]), temps - {temp};
      trail := trail + [Now()];
      if !faults.chmod {
        return Err(Io("chmod cache file"));
      }
      if !faults.syncDirectory {
        return Err(Io("sync cache directory"));
      }
      return Ok(());
    }

    /** `remove_corrupt_file`: only a regular file, and failures are ignored. */
    method RemoveCorrupt(faults: ReadFaults)
      modifies this`entry, this`trail
      ensures entry == if faults.removeStat && faults.remove && old(entry).File? then Absent else old(entry)
      ensures trail == old(trail) + if entry == old(entry) then [] else [Now()]
    {
      if faults.removeStat && entry.File? && faults.remove {
        entry := Absent;
        trail := trail + [Now()];
      }
    }

    /** `read_unlocked`. */
    method ReadUnlocked(reader: Reader, faults: ReadFaults) returns (r: Result<Option<Envelope>, CacheError>)
      requires Intact()
      modifies this`entry, this`trail
      ensures r == ReadResult(old(entry), reader, faults)
      ensures entry == ReadLeaves(old(entry), reader, faults) && Intact()
      ensures Legal(Op.Read(reader), old(entry), entry, Some(r))
    {
      if !faults.stat {
        return Err(Io("stat"));
      }
      if entry.Absent? {
        return Ok(None);
      }
      if entry.Irregular? {
        return Err(InvalidEnvelope("not a regular file"));
      }
      if !faults.chmod {
        return Err(Io("chmod cache file"));
      }
      var content := entry.data.content;
      if !SizeSupported(content.size) {
        RemoveCorrupt(faults);
        return Err(InvalidEnvelope("size"));
      }
      if !faults.read {
        return Err(Io("read"));
      }
      var rejection := Rejection(reader, content);
      if rejection.Some? {
        RemoveCorrupt(faults);
        return Err(rejection.value);
      }
      return Ok(Some(content.body.envelope));
    }

    /** `read_untyped_json_envelope`: it never changes the file. */
    method Probe(faults: ReadFaults) returns (r: Result<Option<Envelope>, CacheError>)
      requires Intact()
      ensures r == ProbeResult(entry, faults)
      // The envelope is the file's own, whatever its schema and service, and only a missing file is a miss.
      ensures r.Ok? && r.value.Some? <==>
        && faults.stat && faults.chmod && faults.read && entry.File?
        && SizeSupported(entry.data.content.size) && entry.data.content.body.Enveloped?
      ensures r.Ok? && r.value.Some? ==> r.value.value == entry.data.content.body.envelope
      ensures r == Ok(None) <==> faults.stat && entry.Absent?
      ensures Legal(Op.Probe, entry, entry, Some(r))
    {
      if !faults.stat {
        return Err(Io("stat"));
      }
      if entry.Absent? {
        return Ok(None);
      }
      if entry.Irregular? {
        return Err(InvalidEnvelope("not a regular file"));
      }
      if !faults.chmod {
        return Err(Io("chmod cache file"));
      }
      var content := entry.data.content;
      if !SizeSupported(content.size) {
        return Err(InvalidEnvelope("size"));
      }
      if !faults.read {
        return Err(Io("read"));
      }
      return if content.body.Enveloped? then Ok(Some(content.body.envelope)) else Err(Deserialize);
    }

    /** `clear`: removing an absent file succeeds. */
    method Clear(statOk: bool, removeOk: bool) returns (r: Result<(), CacheError>)
      modifies this`entry, this`trail
      ensures r.Ok? ==> entry == Absent
      ensures r.Err? ==> entry == old(entry)
      ensures r.Ok? <==> statOk && !old(entry).Irregular? && (old(entry).Absent? || removeOk)
      ensures Legal(Op.Clear, old(entry), entry, Some(Unit(r)))
    {
      r := RejectIrregular(statOk);
      if r.Err? || entry.Absent? {
        return;
      }
      if !removeOk {
        return Err(Io("remove"));
      }
      entry := Absent;
      trail := trail + [Now()];
    }

    /** `write_inner`, from the serialized payload on; `size` is the size of the serialized envelope. */
    method Write(writer: Reader, payload: Json, millis: nat, size: nat, candidates: seq<nat>, faults: WriteFaults)
      returns (r: Result<(), CacheError>)
      requires |candidates| == TEMP_ATTEMPTS && size > 0 && millis < U128_LIMIT
      modifies this
      ensures IsEmptyPayload(payload) ==> r == Err(EmptyPayload) && entry == old(entry)
      // What an accepted write leaves is what the next read of that cache returns.
      ensures r.Ok? ==> forall reader: Reader, f: ReadFaults ::
                reader.schemaVersion == writer.schemaVersion && reader.service == writer.service
                && f.stat && f.chmod && f.read ==>
                ReadResult(entry, reader, f) ==
                  if reader.accepts(payload) then Ok(Some(WrittenEnvelope(writer, millis, payload)))
                      else Err(Deserialize)
      ensures var content := Content(size, Enveloped(WrittenEnvelope(writer, millis, payload)));
              && (r.Err? ==> entry == old(entry) || entry == File(Whole(content, true)))
              && Legal(Op.Write(content), old(entry), entry, Some(Unit(r)))
    {
      hide IsEmptyPayload, ReadResult, BodyRejection, Rejection, WrittenEnvelope;
      if IsEmptyPayload(payload) {
        return Err(EmptyPayload);
      }
      var content := Content(size, Enveloped(WrittenEnvelope(writer, millis, payload)));
      r := WriteAtomically(content, candidates, faults);
      if r.Ok? {
        forall reader: Reader, f: ReadFaults |
          reader.schemaVersion == writer.schemaVersion && reader.service == writer.service && f.stat && f.chmod &&
              f.read
          ensures ReadResult(entry, reader, f) ==
            if reader.accepts(payload) then Ok(Some(WrittenEnvelope(writer, millis, payload))) else Err(Deserialize)
        {
          InstalledIsRead(writer, reader, millis, payload, size, f);
        }
      }
    }
  }

  // ---------------------------------------------------------------- what a read returns and leaves

  function ReadResult(entry: Entry, reader: Reader, faults: ReadFaults): Result<Option<Envelope>, CacheError> {
    if !faults.stat then Err(Io("stat"))
    else
      match entry
      case Absent => Ok(None)
      case Irregular => Err(InvalidEnvelope("not a regular file"))
      case File(Torn) => Err(Deserialize)
      case File(Whole(content, _)) =>
        if !faults.chmod then Err(Io("chmod cache file"))
        else if !SizeSupported(content.size) then Err(InvalidEnvelope("size"))
        else if !faults.read then Err(Io("read"))
        else
          match Rejection(reader, content)
          case Some(error) => Err(error)
          case None => Ok(Some(content.body.envelope))
  }

  /** What an accepted write installs is what a later read returns. */
  lemma InstalledIsRead(writer: Reader, reader: Reader, millis: nat, payload: Json, size: nat, faults: ReadFaults)
    requires writer.schemaVersion == reader.schemaVersion && writer.service == reader.service
    requires !IsEmptyPayload(payload) && SizeSupported(size) && millis < U128_LIMIT
    requires faults.stat && faults.chmod && faults.read
    ensures ReadResult(File(Whole(Content(size, Enveloped(WrittenEnvelope(writer, millis, payload))), true)),
            reader, faults) ==
            if reader.accepts(payload) then Ok(Some(WrittenEnvelope(writer, millis, payload))) else Err(Deserialize)
  {
    hide IsEmptyPayload, Rejection, WrittenEnvelope;
    WrittenContentIsReadable(writer, reader, millis, payload, size);
  }

  /** Whether a read gets as far as rejecting the file's size or content. */
  predicate Rejects(entry: Entry, reader: Reader, faults: ReadFaults) {
    && faults.stat && faults.chmod
    && entry.File? && entry.data.Whole?
    && (!SizeSupported(entry.data.content.size) || faults.read)
    && Rejection(reader, entry.data.content).Some?
  }

  function ReadLeaves(entry: Entry, reader: Reader, faults: ReadFaults): Entry {
    if Rejects(entry, reader, faults) && faults.removeStat && faults.remove then Absent else entry
  }

  function ProbeResult(entry: Entry, faults: ReadFaults): Result<Option<Envelope>, CacheError> {
    if !faults.stat then Err(Io("stat"))
    else
      match entry
      case Absent => Ok(None)
      case Irregular => Err(InvalidEnvelope("not a regular file"))
      case File(Torn) => Err(Deserialize)
      case File(Whole(content, _)) =>
        if !faults.chmod then Err(Io("chmod cache file"))
        else if !SizeSupported(content.size) then Err(InvalidEnvelope("size"))
        else if !faults.read then Err(Io("read"))
        else if content.body.Enveloped? then Ok(Some(content.body.envelope))
        else Err(Deserialize)
  }

  const NO_FAULTS := ReadFaults(true, true, true, true, true)

  /**
   A rejected file is removed, after which every reader finds nothing; and a file is
   removed only when its size or content was rejected.
   */
  lemma RejectedFileIsGone(entry: Entry, reader: Reader, faults: ReadFaults, next: Reader)
    requires faults.removeStat && faults.remove
    ensures Rejects(entry, reader, faults) ==>
      && ReadResult(entry, reader, faults).Err?
      && ReadResult(ReadLeaves(entry, reader, faults), next, NO_FAULTS) == Ok(None)
    ensures ReadLeaves(entry, reader, faults) != entry ==> Rejects(entry, reader, faults)
    ensures ReadResult(entry, reader, faults).Ok? ==> ReadLeaves(entry, reader, faults) == entry
  {
  }
}
