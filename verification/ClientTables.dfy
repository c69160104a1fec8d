/**
 The reference tables of one client handle and what each call does to them.

 Random identifiers are numbers that never repeat. The answers of the inner client are
 arbitrary parts of the calls: any call may fail, and any row may come back.
 */
module ClientTables {
  import opened Wrappers

  /** An identifier handed across the bridge. */
  type Id = int

  /** What an identifier stands for inside. */
  type Ref = int

  /** The tables of the handle, by number; the numbers mean nothing. */
  type Slot = n: nat | n < 20

  const PHASES: Slot := 0
  const DEVICES: Slot := 1
  const NEWS_SOURCES: Slot := 2
  const NEWS_CHANNELS: Slot := 3
  const ARTICLES: Slot := 4
  const SUBSCRIPTIONS: Slot := 5
  const COURSES: Slot := 6
  const HOMEWORK: Slot := 7
  const FILES: Slot := 8
  const LIBRARIES: Slot := 9
  const FLOORS: Slot := 10
  const SECTIONS: Slot := 11
  const WINDOWS: Slot := 12
  const AVAILABILITY: Slot := 13
  const RESERVATIONS: Slot := 14
  const ASSESSMENTS: Slot := 15
  const INVOICES: Slot := 16
  const RESERVES: Slot := 17
  const BUILDINGS: Slot := 18
  const SEAT_IDS: Slot := 19

  /** One table for each slot. */
  type Live = tables: seq<map<Id, Ref>> | |tables| == 20 witness seq(20, slot => map[])

  /**
   `phaseIds` and `seats` are kept the other way round: by reference. The identifiers of
   `SEAT_IDS` are those in `seats`, and its own table stays empty.
   */
  datatype Tables = Tables(next: Id, live: Live, phaseIds: map<Ref, Id>, seats: map<Ref, Id>)

  datatype Answer<+T> = Failed | Got(value: T)

  datatype Handle = Handle(slot: Slot, id: Id)

  /** One page of service-hall tasks: its view, where it came from, its phase references. */
  datatype HallPage = HallPage(phases: bool, live: bool, stale: bool, tasks: seq<Option<Ref>>)

  datatype Seats = Seats(availability: Ref, seats: seq<Ref>)

  datatype Catalog = Catalog(sources: seq<Ref>, channels: seq<Ref>)

  datatype Request =
    /** A read that replaces one table, reached through the handles `via`. */
    | List(slot: Slot, via: seq<Handle>, rows: Answer<seq<Option<Ref>>>)
    | ReadCatalog(catalog: Answer<Catalog>)
    | ReadSeats(window: Id, inventory: Answer<Seats>)
    | ReadHall(refresh: bool, page: Answer<HallPage>)
    /** A read of one thing: no table changes. */
    | Look(handle: Handle, answer: Answer<()>)
    | ReadSockets(availability: Id, statuses: Answer<seq<Ref>>)
    | SetSocket(availability: Id, seat: Id, answer: Answer<()>)
    /** A one-shot write; `translates` is whether its other arguments are accepted. */
    | Spend(handle: Handle, translates: bool, answer: Answer<()>)
    | Reserve(window: Id, seat: Id, answer: Answer<()>)
    /** A login, logout, code or captcha step: its answer is not looked at. */
    | Authenticate

  predicate OneShot(slot: Slot) {
    slot == ARTICLES || slot == SUBSCRIPTIONS || slot == RESERVATIONS || slot == ASSESSMENTS || slot == DEVICES
  }

  /** The table through which a table is read. */
  function Parent(slot: Slot): Option<Slot> {
    if slot == FLOORS then Some(LIBRARIES)
    else if slot == SECTIONS then Some(FLOORS)
    else if slot == WINDOWS then Some(SECTIONS)
    else if slot == AVAILABILITY then Some(WINDOWS)
    else if slot == HOMEWORK || slot == FILES then Some(COURSES)
    else None
  }

  /** Reads that are calls of their own, because they fill more than one table. */
  predicate ReadApart(slot: Slot) {
    slot == PHASES || slot == NEWS_SOURCES || slot == NEWS_CHANNELS || slot == AVAILABILITY || slot == SEAT_IDS
  }

  predicate NewsFilter(handle: Handle) {
    handle.slot == NEWS_SOURCES || handle.slot == NEWS_CHANNELS || handle.slot == SUBSCRIPTIONS
  }

  /** Through which handles each table is read. */
  predicate ReadThrough(slot: Slot, via: seq<Handle>) {
    && !ReadApart(slot)
    && (slot == ARTICLES ==> forall k | 0 <= k < |via| :: NewsFilter(via[k]))
    && (slot != ARTICLES ==> |via| == if Parent(slot).Some? then 1 else 0)
    && (Parent(slot).Some? && |via| == 1 ==> via[0].slot == Parent(slot).value)
  }

  /** The calls the handle offers. */
  predicate Offered(call: Request) {
    && (call.List? ==> ReadThrough(call.slot, call.via))
    && (call.Look? ==> call.handle.slot != SEAT_IDS)
    && (call.Spend? ==> OneShot(call.handle.slot))
  }

  type Call = call: Request | Offered(call) witness Authenticate

  /** `Shown` carries the identifiers of the rows, in order. */
  datatype Reply = Refused | Failure | Shown(ids: seq<Option<Id>>) | Done

  /** `sent` is the handle of a one-shot write that left. */
  datatype Outcome = Outcome(tables: Tables, reply: Reply, sent: Option<Handle>)

  // ---------------------------------------------------------------- minting

  /** `id` is the identifier of some row. */
  predicate Listed(ids: seq<Option<Id>>, id: Id) {
    Some(id) in ids
  }

  lemma ListedStill(first: Option<Id>, ids: seq<Option<Id>>, id: Id)
    requires Listed(ids, id)
    ensures Listed([first] + ids, id)
  {
    assert Some(id) in ids;
    var k :| 0 <= k < |ids| && ids[k] == Some(id);
    assert ([first] + ids)[k + 1] == Some(id);
  }

  datatype Minted = Minted(table: map<Id, Ref>, ids: seq<Option<Id>>, next: Id)

  /** One new identifier for each row that has a reference. */
  function Mint(rows: seq<Option<Ref>>, next: Id): (r: Minted)
    ensures next <= r.next && |r.ids| == |rows|
  {
    if |rows| == 0 then Minted(map[], [], next)
    else
      var before := Mint(rows[..|rows| - 1], next);
      match rows[|rows| - 1]
      case None => Minted(before.table, before.ids + [None], before.next)
      case Some(ref) => Minted(before.table[before.next := ref], before.ids + [Some(before.next)], before.next + 1)
  }

  lemma {:induction false} MintedAreNew(rows: seq<Option<Ref>>, next: Id)
    ensures forall id: Id | id in Mint(rows, next).table :: next <= id < Mint(rows, next).next
  {
    if |rows| > 0 {
      MintedAreNew(rows[..|rows| - 1], next);
    }
  }

  /** The rows show exactly the identifiers of the table, and each resolves to its row's reference. */
  ghost predicate Shows(rows: seq<Option<Ref>>, minted: Minted) {
    && |minted.ids| == |rows|
    && (forall id: Id :: id in minted.table <==> Listed(minted.ids, id))
    && (forall k | 0 <= k < |rows| :: minted.ids[k].Some? <==> rows[k].Some?)
    && (forall k | 0 <= k < |rows| && rows[k].Some? ::
          minted.ids[k].value in minted.table && minted.table[minted.ids[k].value] == rows[k].value)
  }

  lemma {:induction false} MintedAreShown(rows: seq<Option<Ref>>, next: Id)
    ensures Shows(rows, Mint(rows, next))
  {
    if |rows| > 0 {
      MintedAreShown(rows[..|rows| - 1], next);
      MintedAreNew(rows[..|rows| - 1], next);
    }
  }

  /** No two rows share an identifier. */
  lemma {:induction false} MintedDiffer(rows: seq<Option<Ref>>, next: Id, j: nat, k: nat)
    requires j < k < |rows| && rows[j].Some? && rows[k].Some?
    ensures Mint(rows, next).ids[j] != Mint(rows, next).ids[k]
  {
    var before := rows[..|rows| - 1];
    if k < |rows| - 1 {
      MintedDiffer(before, next, j, k);
    } else {
      MintedAreShown(before, next);
      MintedAreNew(before, next);
    }
  }

  datatype Seated = Seated(seats: map<Ref, Id>, ids: seq<Option<Id>>, next: Id)

  /** One new identifier for each seat; a seat listed twice answers to its last one. */
  function MintSeats(seats: seq<Ref>, next: Id): (r: Seated)
    ensures next <= r.next && |r.ids| == |seats|
  {
    if |seats| == 0 then Seated(map[], [], next)
    else
      var before := MintSeats(seats[..|seats| - 1], next);
      Seated(before.seats[seats[|seats| - 1] := before.next], before.ids + [Some(before.next)], before.next + 1)
  }

  /** Every seat of the inventory answers to one of the new identifiers shown, and no two to the same. */
  ghost predicate NewSeats(seats: seq<Ref>, next: Id, seated: Seated) {
    && (forall seat: Ref :: seat in seated.seats <==> seat in seats)
    && (forall seat: Ref | seat in seated.seats ::
        next <= seated.seats[seat] < seated.next && Listed(seated.ids, seated.seats[seat]))
    && (forall s: Ref, t: Ref | s in seated.seats && t in seated.seats && s != t :: seated.seats[s] != seated.seats[t])
  }

  lemma {:induction false} SeatsAreNew(seats: seq<Ref>, next: Id)
    ensures NewSeats(seats, next, MintSeats(seats, next))
  {
    if |seats| > 0 {
      var before := seats[..|seats| - 1];
      assert seats == before + [seats[|seats| - 1]];
      SeatsAreNew(before, next);
    }
  }

  datatype Hall = Hall(byId: map<Id, Ref>, byRef: map<Ref, Id>, ids: seq<Option<Id>>, next: Id)

  /** One task: its reference keeps the identifier it already has, or gets a new one. */
  function Place(hall: Hall, task: Option<Ref>): Hall {
    match task
    case None => hall.(ids := hall.ids + [None])
    case Some(ref) =>
      var known := ref in hall.byRef;
      var id := if known then hall.byRef[ref] else hall.next;
      var next := if known then hall.next else hall.next + 1;
      Hall(hall.byId[id := ref], hall.byRef[ref := id], hall.ids + [Some(id)], next)
  }

  function Enter(byId: map<Id, Ref>, byRef: map<Ref, Id>, tasks: seq<Option<Ref>>, next: Id): (r: Hall)
    ensures |r.ids| == |tasks|
  {
    if |tasks| == 0 then Hall(byId, byRef, [], next)
    else Place(Enter(byId, byRef, tasks[..|tasks| - 1], next), tasks[|tasks| - 1])
  }

  // ---------------------------------------------------------------- clearing

  /** Whether a successful read of `top` empties `slot`, besides replacing its own table. */
  predicate Below(top: Slot, slot: Slot) {
    || (top == LIBRARIES && (slot == FLOORS || slot == SECTIONS || slot == WINDOWS || slot == AVAILABILITY))
    || (top == FLOORS && (slot == SECTIONS || slot == WINDOWS || slot == AVAILABILITY))
    || (top == SECTIONS && (slot == WINDOWS || slot == AVAILABILITY))
    || (top == WINDOWS && slot == AVAILABILITY)
    || (top == COURSES && (slot == HOMEWORK || slot == FILES))
  }

  function ClearBelow(live: Live, top: Slot): (r: Live)
    ensures forall slot: Slot :: r[slot] == if Below(top, slot) then map[] else live[slot]
  {
    seq(20, slot requires 0 <= slot < 20 => if Below(top, slot) then map[] else live[slot])
  }

  /** Some reads empty their table before they ask, so even a failed one leaves it empty. */
  predicate ClearsFirst(slot: Slot) {
    slot == ASSESSMENTS || slot == DEVICES || slot == RESERVES
  }

  /** `invalidate_auth_bound_references` lists every table but the library reservations. */
  predicate AuthBound(slot: Slot) {
    slot != RESERVATIONS
  }

  function ClearAuthBound(live: Live): (r: Live)
    ensures forall slot: Slot :: r[slot] == if AuthBound(slot) then map[] else live[slot]
  {
    seq(20, slot requires 0 <= slot < 20 => if AuthBound(slot) then map[] else live[slot])
  }

  function Invalidated(t: Tables): Tables {
    Tables(t.next, ClearAuthBound(t.live), map[], map[])
  }

  // ---------------------------------------------------------------- the calls

  /** Whether the tables answer to a handle. */
  predicate Resolves(t: Tables, handle: Handle) {
    handle.id in t.live[handle.slot] || (handle.slot == SEAT_IDS && SeatNamed(t, handle.id))
  }

  predicate SeatNamed(t: Tables, seat: Id) {
    exists ref: Ref :: ref in t.seats && t.seats[ref] == seat
  }

  function Unchanged(t: Tables, reply: Reply): Outcome {
    Outcome(t, reply, None)
  }

  function DoList(t: Tables, slot: Slot, via: seq<Handle>, rows: Answer<seq<Option<Ref>>>): Outcome {
    if exists k | 0 <= k < |via| :: !Resolves(t, via[k]) then Unchanged(t, Refused)
    else if rows.Failed? then
      Unchanged(if ClearsFirst(slot) then t.(live := t.live[slot := map[]]) else t, Failure)
    else
      var minted := Mint(rows.value, t.next);
      Outcome(
        Tables(minted.next, ClearBelow(t.live, slot)[slot := minted.table], t.phaseIds,
               if Below(slot, AVAILABILITY) then map[] else t.seats),
        Shown(minted.ids), None)
  }

  function DoCatalog(t: Tables, catalog: Answer<Catalog>): Outcome {
    if catalog.Failed? then Unchanged(t, Failure)
    else
      var sources := Mint(Rows(catalog.value.sources), t.next);
      var channels := Mint(Rows(catalog.value.channels), sources.next);
      Outcome(
        t.(next := channels.next, live := t.live[NEWS_SOURCES := sources.table][NEWS_CHANNELS := channels.table]),
        Shown(sources.ids + channels.ids), None)
  }

  function Rows(refs: seq<Ref>): (r: seq<Option<Ref>>)
    ensures |r| == |refs| && forall k | 0 <= k < |r| :: r[k] == Some(refs[k])
  {
    seq(|refs|, k requires 0 <= k < |refs| => Some(refs[k]))
  }

  function DoSeats(t: Tables, window: Id, inventory: Answer<Seats>): Outcome {
    if !Resolves(t, Handle(WINDOWS, window)) then Unchanged(t, Refused)
    else if inventory.Failed? then Unchanged(t, Failure)
    else
      var seated := MintSeats(inventory.value.seats, t.next + 1);
      Outcome(
        t.(next := seated.next, live := t.live[AVAILABILITY := map[t.next := inventory.value.availability]],
            seats := seated.seats),
        Shown([Some(t.next)] + seated.ids), None)
  }

  predicate ContextChanged(refresh: bool, page: HallPage) {
    page.phases && (refresh || page.live || page.stale)
  }

  function DoHall(t: Tables, refresh: bool, page: Answer<HallPage>): Outcome {
    if page.Failed? then Unchanged(t, Failure)
    else
      var changed := ContextChanged(refresh, page.value);
      var hall := Enter(if changed then map[] else t.live[PHASES], if changed then map[] else t.phaseIds,
                        page.value.tasks, t.next);
      Outcome(t.(next := hall.next, live := t.live[PHASES := hall.byId], phaseIds := hall.byRef), Shown(hall.ids), None)
  }

  function DoLook(t: Tables, handle: Handle, answer: Answer<()>): Outcome {
    Unchanged(t, if !Resolves(t, handle) then Refused else if answer.Failed? then Failure else Done)
  }

  function DoSockets(t: Tables, availability: Id, statuses: Answer<seq<Ref>>): Outcome {
    if !Resolves(t, Handle(AVAILABILITY, availability)) then Unchanged(t, Refused)
    else if statuses.Failed? then Unchanged(t, Failure)
    else if exists k | 0 <= k < |statuses.value| :: statuses.value[k] !in t.seats then Unchanged(t, Refused)
    else
      Unchanged(t, Shown(seq(|statuses.value|,
        k requires 0 <= k < |statuses.value| && statuses.value[k] in t.seats => Some(t.seats[statuses.value[k]]))))
  }

  function DoSetSocket(t: Tables, availability: Id, seat: Id, answer: Answer<()>): Outcome {
    Unchanged(t,
      if !Resolves(t, Handle(AVAILABILITY, availability)) || !Resolves(t, Handle(SEAT_IDS, seat)) then Refused
      else if answer.Failed? then Failure else Done)
  }

  function DoSpend(t: Tables, handle: Handle, translates: bool, answer: Answer<()>): Outcome {
    if !Resolves(t, handle) then Unchanged(t, Refused)
    else
      var rest := if handle.slot == DEVICES then map[] else t.live[handle.slot] - {handle.id};
      var spent := t.(live := t.live[handle.slot := rest]);
      if handle.slot == ASSESSMENTS && !translates then Outcome(spent, Refused, None)
      else Outcome(spent, if answer.Failed? then Failure else Done, Some(handle))
  }

  function DoReserve(t: Tables, window: Id, seat: Id, answer: Answer<()>): Outcome {
    if !Resolves(t, Handle(WINDOWS, window)) || !Resolves(t, Handle(SEAT_IDS, seat)) then Unchanged(t, Refused)
    else
      Outcome(t.(seats := map ref: Ref | ref in t.seats && t.seats[ref] != seat :: t.seats[ref]),
              if answer.Failed? then Failure else Done, Some(Handle(SEAT_IDS, seat)))
  }

  function Perform(t: Tables, call: Call): Outcome {
    match call
    case List(slot, via, rows) => DoList(t, slot, via, rows)
    case ReadCatalog(catalog) => DoCatalog(t, catalog)
    case ReadSeats(window, inventory) => DoSeats(t, window, inventory)
    case ReadHall(refresh, page) => DoHall(t, refresh, page)
    case Look(handle, answer) => DoLook(t, handle, answer)
    case ReadSockets(availability, statuses) => DoSockets(t, availability, statuses)
    case SetSocket(availability, seat, answer) => DoSetSocket(t, availability, seat, answer)
    case Spend(handle, translates, answer) => DoSpend(t, handle, translates, answer)
    case Reserve(window, seat, answer) => DoReserve(t, window, seat, answer)
    case Authenticate => Outcome(Invalidated(t), Done, None)
  }

  function NoTables(): (live: Live)
    ensures forall slot: Slot :: live[slot] == map[]
  {
    seq(20, _ => map[])
  }

  /** A new handle: nothing was read yet. */
  function Start(): Tables {
    Tables(0, NoTables(), map[], map[])
  }

  /** The tables after any calls, in order. */
  function Run(calls: seq<Call>): Tables {
    if |calls| == 0 then Start() else Perform(Run(calls[..|calls| - 1]), calls[|calls| - 1]).tables
  }

  /** What the `i`-th call of a run did. */
  function At(calls: seq<Call>, i: nat): Outcome
    requires i < |calls|
  {
    Perform(Run(calls[..i]), calls[i])
  }

  /** The handles sent by the calls of a run, in order. */
  function Sent(calls: seq<Call>): seq<Handle> {
    if |calls| == 0 then []
    else
      var sent := At(calls, |calls| - 1).sent;
      Sent(calls[..|calls| - 1]) + if sent.Some? then [sent.value] else []
  }
}
