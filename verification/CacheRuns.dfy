/**
 Many processes on one cache path: any interleaving of reads, writes, clears and
 probes, each inside the lock, each able to fail or crash at every step.

 The guards look at a process's own position only, never at who holds the lock; that
 at most one process is inside is proved. Whatever the interleaving, the finished and
 crashed operations, in the order they left the lock, are a serial run of one register.
 */
module CacheRuns {
  import opened Wrappers
  import opened CacheValues
  import opened CacheFiles
  import opened CacheRegister

  type Pid = nat

  /** How far an operation has come inside the lock. */
  datatype Stage =
    | Entered
    | Sized(size: nat)
    | Loaded(content: Content)
    | Rejecting(error: CacheError)
    | Checked
    | Created(temp: nat)
    | Filled(temp: nat)
    | Synced(temp: nat)
    | Renamed(temp: nat)
    | Cleaning(temp: nat, error: CacheError)
    | Done(outcome: Outcome)

  datatype Position =
    | Waiting(op: Op, called: nat)
    | Inside(op: Op, called: nat, stage: Stage)

  /** One operation that left the lock: what it found, what it left, what it returned (`None` for a crash). */
  datatype Record = Record(pid: Pid, op: Op, called: nat, left: nat, before: Entry, after: Entry,
      outcome: Option<Outcome>)

  datatype State = State(
    disk: Snapshot,
    holder: Option<Pid>,
    positions: map<Pid, Position>,
    clock: nat,
    // For the proofs: what the holder found, the history, and the temporary files given up.
    found: Entry,
    history: seq<Record>,
    leaked: set<nat>)

  // ---------------------------------------------------------------- steps inside the lock

  /** `symlink_metadata`, the regular-file test and the permission fix of a read or a probe. */
  ghost predicate Stats(entry: Entry, to: Stage) {
    || (to.Done? && to.outcome.Err? && to.outcome.error.Io?)
    || (entry.Absent? && to == Done(Ok(None)))
    || (entry.Irregular? && to == Done(Err(InvalidEnvelope("not a regular file"))))
    || (entry.File? && to.Sized? && (entry.data.Whole? ==> to.size == entry.data.content.size))
  }

  /** `fs::read`. An interrupted write could be read as anything. */
  ghost predicate Loads(entry: Entry, to: Stage) {
    || (to.Done? && to.outcome.Err? && to.outcome.error.Io?)
    || (entry.Absent? && to == Done(Ok(None)))
    || (entry.File? && to.Loaded? && (entry.data.Whole? ==> to.content == entry.data.content))
  }

  ghost predicate ReadAdvances(reader: Reader, from: Stage, before: Snapshot, to: Stage, after: Snapshot) {
    match from
    case Entered => after == before && Stats(before.entry, to)
    case Sized(size) =>
      && after == before
      && if SizeSupported(size) then Loads(before.entry, to) else to == Rejecting(InvalidEnvelope("size"))
    case Loaded(content) =>
      && after == before
      && (match BodyRejection(reader, content.body)
          case Some(error) => to == Rejecting(error)
          case None => to == Done(Ok(Some(content.body.envelope))))
    case Rejecting(error) =>
      && to == Done(Err(error))
      && (after == before || (before.entry.File? && after == before.(entry := Absent)))
    case _ => false
  }

  ghost predicate ProbeAdvances(from: Stage, before: Snapshot, to: Stage, after: Snapshot) {
    && after == before
    && match from
       case Entered => Stats(before.entry, to)
       case Sized(size) =>
         if SizeSupported(size) then Loads(before.entry, to) else to == Done(Err(InvalidEnvelope("size")))
       case Loaded(content) =>
         to == Done(if content.body.Enveloped? then Ok(Some(content.body.envelope)) else Err(Deserialize))
       case _ => false
  }

  /** The fallible step at `from` goes wrong: the guard still has to remove the temporary file. */
  predicate Fails(temp: nat, before: Snapshot, to: Stage, after: Snapshot) {
    after == before && to.Cleaning? && to.temp == temp
  }

  predicate WriteAdvances(content: Content, from: Stage, before: Snapshot, to: Stage, after: Snapshot) {
    match from
    case Entered =>
      || (after == before && to.Done? && to.outcome.Err?)
      || (content.size <= MAX_CACHE_BYTES && !before.entry.Irregular? && to.Created?
          && to.temp !in before.temps && after == before.(temps := before.temps[to.temp := Torn]))
    case Created(temp) =>
      || Fails(temp, before, to, after)
      || (to == Filled(temp) && after == before.(temps := before.temps[temp := Whole(content, false)]))
    case Filled(temp) =>
      || Fails(temp, before, to, after)
      || (to == Synced(temp) && after == before.(temps := before.temps[temp := Whole(content, true)]))
    case Synced(temp) =>
      || Fails(temp, before, to, after)
      || (temp in before.temps && to == Renamed(temp) &&
          after == Snapshot(File(before.temps[temp]), before.temps - {temp}))
    case Renamed(temp) =>
      || Fails(temp, before, to, after)
      || (after == before && to == Done(Ok(None)))
    case Cleaning(temp, error) =>
      to == Done(Err(error)) && (after == before || after == before.(temps := before.temps - {temp}))
    case _ => false
  }

  predicate ClearAdvances(from: Stage, before: Snapshot, to: Stage, after: Snapshot) {
    match from
    case Entered =>
      after == before && ((!before.entry.Irregular? && to == Checked) || (to.Done? && to.outcome.Err?))
    case Checked =>
      || (before.entry.Absent? && after == before && to == Done(Ok(None)))
      || (after == before.(entry := Absent) && to == Done(Ok(None)))
      || (after == before && to.Done? && to.outcome.Err?)
    case _ => false
  }

  ghost predicate Advances(op: Op, from: Stage, before: Snapshot, to: Stage, after: Snapshot) {
    match op
    case Read(reader) => ReadAdvances(reader, from, before, to, after)
    case Probe => ProbeAdvances(from, before, to, after)
    case Write(content) => WriteAdvances(content, from, before, to, after)
    case Clear => ClearAdvances(from, before, to, after)
  }

  /** An unlock that fails turns a success, and only a success, into an error. */
  predicate Returns(computed: Outcome, returned: Outcome) {
    returned == computed || (computed.Ok? && returned == Err(Io("unlock cache")))
  }

  // ---------------------------------------------------------------- the system

  ghost predicate Init(s: State) {
    && (s.disk.entry.File? ==> s.disk.entry.data.Whole?)
    && s.leaked == s.disk.temps.Keys
    && s.holder == None && s.positions == map[] && s.history == []
  }

  ghost predicate Calls(s: State, p: Pid, s': State) {
    exists op ::
      p !in s.positions && s' == s.(positions := s.positions[p := Waiting(op, s.clock)], clock := s.clock + 1)
  }

  /** The lock file cannot be opened, or the caller stops waiting: nothing happened. */
  ghost predicate GivesUp(s: State, p: Pid, s': State) {
    && p in s.positions && s.positions[p].Waiting?
    && s' == s.(positions := s.positions - {p}, clock := s.clock + 1)
  }

  ghost predicate Acquires(s: State, p: Pid, s': State) {
    && p in s.positions && s.positions[p].Waiting? && s.holder.None?
    && s' == s.(holder := Some(p), found := s.disk.entry, clock := s.clock + 1,
                positions := s.positions[p := Inside(s.positions[p].op, s.positions[p].called, Entered)])
  }

  ghost predicate Works(s: State, p: Pid, s': State) {
    && p in s.positions && s.positions[p].Inside?
    && p in s'.positions && s'.positions[p].Inside?
    && var here, there := s.positions[p], s'.positions[p];
    && Advances(here.op, here.stage, s.disk, there.stage, s'.disk)
    && s' == s.(disk := s'.disk, clock := s.clock + 1,
                positions := s.positions[p := here.(stage := there.stage)],
                leaked := s.leaked + if here.stage.Cleaning? then {here.stage.temp} * s'.disk.temps.Keys else {})
  }

  function Leave(s: State, p: Pid, position: Position, outcome: Option<Outcome>): State
    requires position.Inside?
  {
    s.(holder := None, positions := s.positions - {p}, clock := s.clock + 1,
       history := s.history + [Record(p, position.op, position.called, s.clock, s.found, s.disk.entry, outcome)])
  }

  ghost predicate Releases(s: State, p: Pid, s': State) {
    && p in s.positions && s.positions[p].Inside? && s.positions[p].stage.Done?
    && exists returned ::
      Returns(s.positions[p].stage.outcome, returned) && s' == Leave(s, p, s.positions[p], Some(returned))
  }

  /** The process dies: the system releases its lock and its temporary file stays behind. */
  ghost predicate Crashes(s: State, p: Pid, s': State) {
    && p in s.positions
    && s' == match s.positions[p]
       case Waiting(_, _) => s.(positions := s.positions - {p}, clock := s.clock + 1)
       case Inside(_, _, stage) =>
         Leave(s, p, s.positions[p], None).(leaked := s.leaked + TempOf(stage) * s.disk.temps.Keys)
  }

  ghost predicate Next(s: State, s': State) {
    exists p ::
      || Calls(s, p, s') || GivesUp(s, p, s') || Acquires(s, p, s')
      || Works(s, p, s') || Releases(s, p, s') || Crashes(s, p, s')
  }

  ghost predicate Run(states: seq<State>) {
    && |states| > 0 && Init(states[0])
    && forall i | 0 <= i < |states| - 1 :: Next(states[i], states[i + 1])
  }

  // ---------------------------------------------------------------- the register it refines

  /** The operations, in order, carry the register from `initial` to `current`. */
  ghost predicate Serial(initial: Entry, history: seq<Record>, current: Entry) {
    && (forall i | 0 <= i < |history| :: Legal(history[i].op, history[i].before, history[i].after, history[i].outcome))
    && (|history| > 0 ==> history[0].before == initial)
    && (forall i, j | 0 <= i < |history| && j == i + 1 < |history| :: history[j].before == history[i].after)
    && current == if |history| == 0 then initial else history[|history| - 1].after
  }

  // ---------------------------------------------------------------- the invariant

  /** The temporary file a stage answers for. */
  function TempOf(stage: Stage): set<nat> {
    if stage.Created? || stage.Filled? || stage.Synced? || stage.Renamed? || stage.Cleaning? then {stage.temp} else {}
  }

  /** What the holder knows at each stage, in terms of what it found on entry. */
  ghost predicate Knows(op: Op, stage: Stage, found: Entry, disk: Snapshot) {
    match stage
    case Entered => disk.entry == found
    case Sized(size) =>
      && (op.Read? || op.Probe?) && disk.entry == found
      && found.File? && found.data.Whole? && found.data.content.size == size
    case Loaded(content) =>
      && (op.Read? || op.Probe?) && disk.entry == found
      && found.File? && found.data.Whole? && found.data.content == content && SizeSupported(content.size)
    case Rejecting(error) =>
      && op.Read? && disk.entry == found
      && found.File? && found.data.Whole? && Rejection(op.reader, found.data.content) == Some(error)
    case Checked => op.Clear? && disk.entry == found && !found.Irregular?
    case Created(temp) => MayWrite(op, found) && disk.entry == found && temp in disk.temps
    case Filled(temp) =>
      MayWrite(op, found) && disk.entry == found && temp in disk.temps && disk.temps[temp] == Whole(op.content, false)
    case Synced(temp) =>
      MayWrite(op, found) && disk.entry == found && temp in disk.temps && disk.temps[temp] == Whole(op.content, true)
    case Renamed(temp) =>
      MayWrite(op, found) && disk.entry == File(Whole(op.content, true)) && temp !in disk.temps
    case Cleaning(temp, _) =>
      MayWrite(op, found) && (disk.entry == found || disk.entry == File(Whole(op.content, true)))
    case Done(outcome) => Legal(op, found, disk.entry, Some(outcome))
  }

  predicate MayWrite(op: Op, found: Entry) {
    op.Write? && !found.Irregular? && op.content.size <= MAX_CACHE_BYTES
  }

  /** The holder, and nobody else, is inside. */
  ghost predicate OneInside(s: State) {
    && (s.holder.Some? ==> s.holder.value in s.positions)
    && (forall p | p in s.positions :: s.positions[p].Inside? <==> s.holder == Some(p))
  }

  ghost predicate HolderKnows(s: State) {
    s.holder.Some? && s.holder.value in s.positions && s.positions[s.holder.value].Inside? ==>
      Knows(s.positions[s.holder.value].op, s.positions[s.holder.value].stage, s.found, s.disk)
  }

  /** Every temporary file is the holder's or was given up by a crash or a failed removal. */
  ghost predicate TempsAccounted(s: State) {
    && s.leaked <= s.disk.temps.Keys
    && s.disk.temps.Keys <= s.leaked + HolderTemps(s)
    && s.leaked !! HolderTemps(s)
  }

  function HolderTemps(s: State): set<nat> {
    if s.holder.Some? && s.holder.value in s.positions && s.positions[s.holder.value].Inside?
    then TempOf(s.positions[s.holder.value].stage)
    else {}
  }

  /** Calls precede returns, and returns are in the order of the history. */
  ghost predicate Timed(s: State) {
    && (forall p | p in s.positions :: s.positions[p].called < s.clock)
    && (forall i | 0 <= i < |s.history| :: s.history[i].called < s.history[i].left < s.clock)
    && (forall i, j | 0 <= i < j < |s.history| :: s.history[i].left < s.history[j].left)
  }

  ghost predicate Inv(initial: Entry, s: State) {
    && OneInside(s)
    && HolderKnows(s)
    && TempsAccounted(s)
    && Timed(s)
    && (s.disk.entry.File? ==> s.disk.entry.data.Whole?)
    && Serial(initial, s.history, if s.holder.Some? then s.found else s.disk.entry)
  }

  // ---------------------------------------------------------------- every step keeps it

  lemma ReadKeeps(reader: Reader, from: Stage, found: Entry, before: Snapshot, to: Stage, after: Snapshot)
    requires Knows(Read(reader), from, found, before) && ReadAdvances(reader, from, before, to, after)
    requires before.entry.File? ==> before.entry.data.Whole?
    ensures Knows(Read(reader), to, found, after)
    ensures after.entry.File? ==> after.entry.data.Whole?
  {
    hide BodyRejection;
  }

  lemma ProbeKeeps(from: Stage, found: Entry, before: Snapshot, to: Stage, after: Snapshot)
    requires Knows(Probe, from, found, before) && ProbeAdvances(from, before, to, after)
    requires before.entry.File? ==> before.entry.data.Whole?
    ensures Knows(Probe, to, found, after)
    ensures after.entry.File? ==> after.entry.data.Whole?
  {
    hide BodyRejection;
  }

  lemma WriteKeeps(content: Content, from: Stage, found: Entry, before: Snapshot, to: Stage, after: Snapshot)
    requires Knows(Write(content), from, found, before) && WriteAdvances(content, from, before, to, after)
    requires before.entry.File? ==> before.entry.data.Whole?
    ensures Knows(Write(content), to, found, after)
    ensures after.entry.File? ==> after.entry.data.Whole?
  {
    hide BodyRejection;
  }

  lemma ClearKeeps(from: Stage, found: Entry, before: Snapshot, to: Stage, after: Snapshot)
    requires Knows(Clear, from, found, before) && ClearAdvances(from, before, to, after)
    requires before.entry.File? ==> before.entry.data.Whole?
    ensures Knows(Clear, to, found, after)
    ensures after.entry.File? ==> after.entry.data.Whole?
  {
    hide BodyRejection;
  }

  lemma StageKeeps(op: Op, from: Stage, found: Entry, before: Snapshot, to: Stage, after: Snapshot)
    requires Knows(op, from, found, before) && Advances(op, from, before, to, after)
    requires before.entry.File? ==> before.entry.data.Whole?
    ensures Knows(op, to, found, after)
    ensures after.entry.File? ==> after.entry.data.Whole?
  {
    hide Knows, ReadAdvances, ProbeAdvances, WriteAdvances, ClearAdvances;
    match op
    case Read(reader) => ReadKeeps(reader, from, found, before, to, after);
    case Probe => ProbeKeeps(from, found, before, to, after);
    case Write(content) => WriteKeeps(content, from, found, before, to, after);
    case Clear => ClearKeeps(from, found, before, to, after);
  }

  /** Wherever a process dies, the register has taken no step or one of its operation's steps. */
  lemma CrashIsLegal(op: Op, stage: Stage, found: Entry, disk: Snapshot)
    requires Knows(op, stage, found, disk)
    ensures Legal(op, found, disk.entry, None)
  {
    hide BodyRejection;
  }

  lemma ReleaseIsLegal(op: Op, found: Entry, entry: Entry, computed: Outcome, returned: Outcome)
    requires Legal(op, found, entry, Some(computed)) && Returns(computed, returned)
    ensures Legal(op, found, entry, Some(returned))
  {
    hide BodyRejection;
  }

  /** One step inside the lock and the temporary files: only the holder's own name comes or goes. */
  lemma StageTemps(op: Op, from: Stage, found: Entry, before: Snapshot, to: Stage, after: Snapshot, leaked: set<nat>)
    requires Knows(op, from, found, before) && Advances(op, from, before, to, after)
    requires leaked <= before.temps.Keys <= leaked + TempOf(from) && leaked !! TempOf(from)
    ensures var leaked' := leaked + if from.Cleaning? then {from.temp} * after.temps.Keys else {};
            leaked' <= after.temps.Keys <= leaked' + TempOf(to) && leaked' !! TempOf(to)
  {
    hide Legal, ReadAdvances, ProbeAdvances, ClearAdvances;
    match op
    case Write(content) =>
    case Read(reader) => NoTemps(op, from, found, before, to, after);
    case Probe => NoTemps(op, from, found, before, to, after);
    case Clear => NoTemps(op, from, found, before, to, after);
  }

  lemma NoTemps(op: Op, from: Stage, found: Entry, before: Snapshot, to: Stage, after: Snapshot)
    requires Knows(op, from, found, before) && Advances(op, from, before, to, after) && !op.Write?
    ensures TempOf(from) == {} && TempOf(to) == {} && !from.Cleaning? && after.temps == before.temps
  {
    hide BodyRejection, Legal;
  }

  lemma SerialExtends(initial: Entry, history: seq<Record>, current: Entry, record: Record)
    requires Serial(initial, history, current)
    requires record.before == current && Legal(record.op, record.before, record.after, record.outcome)
    ensures Serial(initial, history + [record], record.after)
  {
    hide Legal;
    var longer := history + [record];
    forall i, j | 0 <= i < |longer| && j == i + 1 < |longer|
      ensures longer[j].before == longer[i].after
    {
      assert longer[i] == history[i];
    }
  }

  lemma WorkKeeps(initial: Entry, s: State, p: Pid, s': State)
    requires Inv(initial, s) && Works(s, p, s')
    ensures Inv(initial, s')
  {
    hide Advances, Knows, Serial;
    var here, there := s.positions[p], s'.positions[p];
    StageKeeps(here.op, here.stage, s.found, s.disk, there.stage, s'.disk);
    StageTemps(here.op, here.stage, s.found, s.disk, there.stage, s'.disk, s.leaked);
  }

  lemma LeaveKeeps(initial: Entry, s: State, p: Pid, outcome: Option<Outcome>, s': State)
    requires Inv(initial, s) && p in s.positions && s.positions[p].Inside?
    requires Legal(s.positions[p].op, s.found, s.disk.entry, outcome)
    requires s'.leaked <= s'.disk.temps.Keys <= s'.leaked
    requires s' == Leave(s, p, s.positions[p], outcome).(leaked := s'.leaked)
    ensures Inv(initial, s')
  {
    hide Legal, Knows, Serial;
    var record := s'.history[|s.history|];
    SerialExtends(initial, s.history, s.found, record);
  }

  lemma CrashKeeps(initial: Entry, s: State, p: Pid, s': State)
    requires Inv(initial, s) && Crashes(s, p, s')
    ensures Inv(initial, s')
  {
    hide Legal, Knows, Serial;
    if s.positions[p].Inside? {
      CrashIsLegal(s.positions[p].op, s.positions[p].stage, s.found, s.disk);
      LeaveKeeps(initial, s, p, None, s');
    }
  }

  lemma ReleaseKeeps(initial: Entry, s: State, p: Pid, s': State)
    requires Inv(initial, s) && Releases(s, p, s')
    ensures Inv(initial, s')
  {
    hide Legal, Serial, Returns;
    var outcome := s.positions[p].stage.outcome;
    var returned :| Returns(outcome, returned) && s' == Leave(s, p, s.positions[p], Some(returned));
    ReleaseIsLegal(s.positions[p].op, s.found, s.disk.entry, outcome, returned);
    LeaveKeeps(initial, s, p, Some(returned), s');
  }

  lemma EntryKeeps(initial: Entry, s: State, p: Pid, s': State)
    requires Inv(initial, s) && (Calls(s, p, s') || GivesUp(s, p, s') || Acquires(s, p, s'))
    ensures Inv(initial, s')
  {
    hide Legal, Serial;
  }

  lemma StepKeeps(initial: Entry, s: State, s': State)
    requires Inv(initial, s) && Next(s, s')
    ensures Inv(initial, s')
  {
    hide Inv, Calls, GivesUp, Acquires, Works, Releases, Crashes;
    var p :| Calls(s, p, s') || GivesUp(s, p, s') || Acquires(s, p, s')
          || Works(s, p, s') || Releases(s, p, s') || Crashes(s, p, s');
    if Calls(s, p, s') || GivesUp(s, p, s') || Acquires(s, p, s') {
      EntryKeeps(initial, s, p, s');
    } else if Works(s, p, s') {
      WorkKeeps(initial, s, p, s');
    } else if Releases(s, p, s') {
      ReleaseKeeps(initial, s, p, s');
    } else if Crashes(s, p, s') {
      CrashKeeps(initial, s, p, s');
    }
  }

  // ---------------------------------------------------------------- over whole runs

  lemma {:induction false} RunKeeps(states: seq<State>, k: nat)
    requires Run(states) && k < |states|
    ensures Inv(states[0].disk.entry, states[k])
  {
    hide Inv, Next;
    if k == 0 {
      InitHolds(states[0]);
    } else {
      RunKeeps(states, k - 1);
      assert Next(states[k - 1], states[k - 1 + 1]);
      StepKeeps(states[0].disk.entry, states[k - 1], states[k]);
    }
  }

  lemma InitHolds(s: State)
    requires Init(s)
    ensures Inv(s.disk.entry, s)
  {
  }

  /** At most one process is inside the lock, in every reachable state. */
  lemma MutualExclusion(states: seq<State>, k: nat, p: Pid, q: Pid)
    requires Run(states) && k < |states|
    requires p in states[k].positions && states[k].positions[p].Inside?
    requires q in states[k].positions && states[k].positions[q].Inside?
    ensures p == q
  {
    hide Serial, Run, Knows;
    RunKeeps(states, k);
  }

  /**
   The history of every run is a run of the register, one operation after another, from
   what the path first held to what it holds now; and the serial order respects real
   time: an operation that left before another was called comes first.
   */
  lemma RunsAreLinearizable(states: seq<State>, k: nat)
    requires Run(states) && k < |states|
    ensures var s := states[k];
            && Serial(states[0].disk.entry, s.history, if s.holder.Some? then s.found else s.disk.entry)
            && (forall i, j | 0 <= i < |s.history| && 0 <= j < |s.history| &&
                s.history[i].left < s.history[j].called :: i < j)
  {
    hide Serial, Run, Knows;
    RunKeeps(states, k);
  }

  /** While nobody is inside, the temporary files are exactly those given up. */
  lemma NoTemporaryFileIsLeft(states: seq<State>, k: nat)
    requires Run(states) && k < |states| && states[k].holder.None?
    ensures states[k].disk.temps.Keys == states[k].leaked
  {
    hide Serial, Run, Knows;
    RunKeeps(states, k);
  }

  /** Only a crash, or a removal that failed, gives a temporary file up. */
  lemma LeakedOnlyByFaults(s: State, s': State, p: Pid)
    requires Calls(s, p, s') || GivesUp(s, p, s') || Acquires(s, p, s') || Works(s, p, s') || Releases(s, p, s')
    requires s'.leaked != s.leaked
    ensures Works(s, p, s') && s.positions[p].stage.Cleaning? && s.positions[p].stage.temp in s'.disk.temps
  {
    hide Advances;
  }

  /**
   A reader that takes the file away takes away exactly the content it rejected, which
   is the one it found when it entered, not one written since.
   */
  lemma ReaderDeletesWhatItRejected(states: seq<State>, k: nat, p: Pid)
    requires Run(states) && k + 1 < |states| && Works(states[k], p, states[k + 1])
    requires states[k].positions[p].op.Read?
    requires states[k + 1].disk != states[k].disk
    ensures var s, s' := states[k], states[k + 1];
            && s.disk.entry == s.found && s'.disk == s.disk.(entry := Absent)
            && s.found.File? && s.found.data.Whole?
            && s.positions[p].stage.Rejecting?
            && Rejection(s.positions[p].op.reader, s.found.data.content) == Some(s.positions[p].stage.error)
  {
    hide Serial, Run, BodyRejection, Timed, Legal, TempsAccounted;
    RunKeeps(states, k);
  }

  /** What lies between two operations that leave the register alone is still there. */
  lemma {:induction false} QuietStretch(initial: Entry, history: seq<Record>, current: Entry, i: nat, j: nat)
    requires Serial(initial, history, current) && i < j < |history|
    requires forall k | i < k < j :: history[k].after == history[k].before
    ensures history[j].before == history[i].after
    decreases j
  {
    hide Legal;
    if i + 1 < j {
      QuietStretch(initial, history, current, i, j - 1);
    }
  }

  /**
   A read after a successful write, with nothing but quiet operations between them,
   returns what was written, fails in the system, or is refused by its own checks.
   */
  lemma ReadReturnsLatestWrite(states: seq<State>, k: nat, i: nat, j: nat)
    requires Run(states) && k < |states| && i < j < |states[k].history|
    requires states[k].history[i].op.Write? && states[k].history[i].outcome == Some(Ok(None))
    requires forall m | i < m < j :: states[k].history[m].after == states[k].history[m].before
    requires states[k].history[j].op.Read? && states[k].history[j].outcome.Some?
    ensures var written, read := states[k].history[i].op.content, states[k].history[j];
            match Rejection(read.op.reader, written)
            case None =>
              || read.outcome.value == Ok(Some(written.body.envelope))
              || (read.outcome.value.Err? && read.outcome.value.error.Io?)
            case Some(error) =>
              || read.outcome.value == Err(error)
              || (read.outcome.value.Err? && read.outcome.value.error.Io?)
  {
    hide Run, BodyRejection, Knows;
    RunKeeps(states, k);
    var s := states[k];
    QuietStretch(states[0].disk.entry, s.history, if s.holder.Some? then s.found else s.disk.entry, i, j);
  }

  /** Once the file is gone, a read finds nothing, until something is written. */
  lemma {:induction false} NothingUntilNextWrite(states: seq<State>, k: nat, i: nat, j: nat)
    requires Run(states) && k < |states| && i < j < |states[k].history|
    requires states[k].history[i].after == Absent
    requires forall m | i < m < j :: !states[k].history[m].op.Write?
    requires states[k].history[j].op.Read? && states[k].history[j].outcome.Some?
    ensures states[k].history[j].outcome.value == Ok(None)
            || (states[k].history[j].outcome.value.Err? && states[k].history[j].outcome.value.error.Io?)
    ensures states[k].history[j].after == Absent
  {
    hide Run, BodyRejection, Knows;
    RunKeeps(states, k);
    var s := states[k];
    StaysAbsent(states[0].disk.entry, s.history, if s.holder.Some? then s.found else s.disk.entry, i, j);
  }

  lemma {:induction false} StaysAbsent(initial: Entry, history: seq<Record>, current: Entry, i: nat, j: nat)
    requires Serial(initial, history, current) && i < j < |history|
    requires history[i].after == Absent
    requires forall m | i < m < j :: !history[m].op.Write?
    ensures history[j].before == Absent
    decreases j
  {
    hide BodyRejection;
    if i + 1 < j {
      StaysAbsent(initial, history, current, i, j - 1);
      assert Legal(history[j - 1].op, history[j - 1].before, history[j - 1].after, history[j - 1].outcome);
    }
  }

  // ---------------------------------------------------------------- the sections taken whole

  /** A read run without interruption, as `ReadUnlocked` runs it, is one step of the register. */
  lemma WholeReadIsLegal(reader: Reader, entry: Entry, faults: ReadFaults)
    requires entry.File? ==> entry.data.Whole?
    ensures Legal(Read(reader), entry, ReadLeaves(entry, reader, faults), Some(ReadResult(entry, reader, faults)))
    ensures Legal(Probe, entry, entry, Some(ProbeResult(entry, faults)))
  {
    hide BodyRejection;
  }
}
