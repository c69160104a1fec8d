/**
 Which handles are live and what each stands for, read off the history of the calls alone: a
 handle is live exactly when the latest successful read of its table showed it, nothing has
 emptied that table since, and no call has used it up.
 */
module ClientHierarchy {
  import opened Wrappers
  import opened ClientTables
  import opened ClientRuns

  // ---------------------------------------------------------------- what calls do to tables

  /** The handle is live and stands for this reference. */
  ghost predicate Stands(t: Tables, handle: Handle, ref: Ref) {
    || (handle.id in t.live[handle.slot] && t.live[handle.slot][handle.id] == ref)
    || (handle.slot == SEAT_IDS && ref in t.seats && t.seats[ref] == handle.id)
  }

  /** A read of this table. */
  predicate Replaces(call: Call, slot: Slot) {
    || (call.List? && call.slot == slot)
    || (call.ReadSeats? && (slot == AVAILABILITY || slot == SEAT_IDS))
    || (call.ReadCatalog? && (slot == NEWS_SOURCES || slot == NEWS_CHANNELS))
  }

  /** The library levels from the top, and what hangs from a course. */
  predicate HangsFrom(slot: Slot, top: Slot) {
    || (top == COURSES && (slot == HOMEWORK || slot == FILES))
    || (top == LIBRARIES && slot in {FLOORS, SECTIONS, WINDOWS, AVAILABILITY, SEAT_IDS})
    || (top == FLOORS && slot in {SECTIONS, WINDOWS, AVAILABILITY, SEAT_IDS})
    || (top == SECTIONS && slot in {WINDOWS, AVAILABILITY, SEAT_IDS})
    || (top == WINDOWS && slot in {AVAILABILITY, SEAT_IDS})
  }

  /**
   The call left the table empty: an invalidation, but for the reservations; a successful read of
   a level above; a failed read of one of the three tables that are emptied first; a device sent.
   */
  predicate Empties(call: Call, slot: Slot, out: Outcome) {
    || (call.Authenticate? && slot != RESERVATIONS)
    || (call.List? && out.reply.Shown? && HangsFrom(slot, call.slot))
    || (call.List? && out.reply == Failure && call.slot == slot && slot in {ASSESSMENTS, DEVICES, RESERVES})
    || (slot == DEVICES && out.sent.Some? && out.sent.value.slot == DEVICES)
  }

  /** The call used this handle up: it was sent, or it is a questionnaire whose answers did not translate. */
  predicate UsesUp(call: Call, handle: Handle, out: Outcome) {
    || out.sent == Some(handle)
    || (call.Spend? && call.handle == handle && handle.slot == ASSESSMENTS && !call.translates)
  }

  /** Row `k` of an answer showed the handle, and its reference is this one. */
  predicate ShowsAt(ids: seq<Option<Id>>, rows: seq<Option<Ref>>, id: Id, ref: Ref, k: nat) {
    k < |ids| && k < |rows| && ids[k] == Some(id) && rows[k] == Some(ref)
  }

  ghost predicate ShowsRow(ids: seq<Option<Id>>, rows: seq<Option<Ref>>, id: Id, ref: Ref) {
    exists k: nat :: ShowsAt(ids, rows, id, ref, k)
  }

  /** The same for a seat, unless the inventory lists that seat again further on. */
  predicate ShowsSeatAt(ids: seq<Option<Id>>, seats: seq<Ref>, id: Id, ref: Ref, k: nat) {
    k < |ids| && k < |seats| && ids[k] == Some(id) && seats[k] == ref && ref !in seats[k + 1..]
  }

  ghost predicate ShowsSeat(ids: seq<Option<Id>>, seats: seq<Ref>, id: Id, ref: Ref) {
    exists k: nat :: ShowsSeatAt(ids, seats, id, ref, k)
  }

  /** The reply to a read showed the handle, and the answer's own row for it has this reference. */
  ghost predicate Showed(call: Call, reply: Reply, handle: Handle, ref: Ref) {
    reply.Shown? &&
      match call
      case List(_, _, Got(rows)) => ShowsRow(reply.ids, rows, handle.id, ref)
      case ReadSeats(_, Got(inventory)) =>
        if handle.slot == AVAILABILITY then
          |reply.ids| > 0 && reply.ids[0] == Some(handle.id) && inventory.availability == ref
        else |reply.ids| > 0 && ShowsSeat(reply.ids[1..], inventory.seats, handle.id, ref)
      case ReadCatalog(Got(catalog)) =>
        var n := |catalog.sources|;
        && n <= |reply.ids|
        && if handle.slot == NEWS_SOURCES then ShowsRow(reply.ids[..n], Rows(catalog.sources), handle.id, ref)
           else ShowsRow(reply.ids[n..], Rows(catalog.channels), handle.id, ref)
      case _ => false
  }

  // ---------------------------------------------------------------- minting, exactly

  lemma {:induction false} MintedExactly(rows: seq<Option<Ref>>, next: Id, id: Id, ref: Ref)
    ensures var minted := Mint(rows, next);
            (id in minted.table && minted.table[id] == ref) <==> ShowsRow(minted.ids, rows, id, ref)
  {
    hide Listed;
    MintedAreShown(rows, next);
    var minted := Mint(rows, next);
    if id in minted.table && minted.table[id] == ref {
      RowOfId(rows, next, id);
    }
    if k: nat :| ShowsAt(minted.ids, rows, id, ref, k) {
      assert rows[k].Some? && minted.ids[k].value in minted.table;
    }
  }

  lemma RowOfId(rows: seq<Option<Ref>>, next: Id, id: Id)
    requires id in Mint(rows, next).table
    ensures ShowsRow(Mint(rows, next).ids, rows, id, Mint(rows, next).table[id])
  {
    MintedAreShown(rows, next);
    var minted := Mint(rows, next);
    assert Listed(minted.ids, id);
    var k :| 0 <= k < |minted.ids| && minted.ids[k] == Some(id);
    assert ShowsAt(minted.ids, rows, id, minted.table[id], k);
  }

  lemma SeatShownSnoc(ids: seq<Option<Id>>, seats: seq<Ref>, last: Option<Id>, seat: Ref, id: Id, ref: Ref, k: nat)
    requires |ids| == |seats|
    ensures ShowsSeatAt(ids + [last], seats + [seat], id, ref, k) <==>
            (k < |ids| && ref != seat && ShowsSeatAt(ids, seats, id, ref, k)) ||
            (k == |ids| && last == Some(id) && ref == seat)
  {
    if k < |ids| {
      assert (seats + [seat])[k + 1..] == seats[k + 1..] + [seat];
    } else if k == |ids| {
      assert (seats + [seat])[k + 1..] == [];
    }
  }

  lemma {:induction false} SeatsExactly(seats: seq<Ref>, next: Id, id: Id, ref: Ref)
    ensures var seated := MintSeats(seats, next);
            (ref in seated.seats && seated.seats[ref] == id) <==> ShowsSeat(seated.ids, seats, id, ref)
  {
    hide ShowsSeatAt;
    var seated := MintSeats(seats, next);
    if |seats| == 0 {
      NoSeatShown(seated.ids, seats, id, ref);
    } else {
      var front, last := seats[..|seats| - 1], seats[|seats| - 1];
      var before := MintSeats(front, next);
      SeatsExactly(front, next, id, ref);
      assert seats == front + [last];
      SeatGrows(before.ids, front, Some(before.next), last, id, ref);
    }
  }

  lemma SeatGrows(ids: seq<Option<Id>>, seats: seq<Ref>, last: Option<Id>, seat: Ref, id: Id, ref: Ref)
    requires |ids| == |seats|
    ensures ShowsSeat(ids + [last], seats + [seat], id, ref) <==>
            (ref != seat && ShowsSeat(ids, seats, id, ref)) || (last == Some(id) && ref == seat)
  {
    hide ShowsSeatAt;
    var allIds, all := ids + [last], seats + [seat];
    SeatShownSnoc(ids, seats, last, seat, id, ref, |ids|);
    SeatInRange(ids, seats, id, ref);
    SeatInRange(allIds, all, id, ref);
    if k: nat :| ShowsSeatAt(allIds, all, id, ref, k) {
      SeatShownSnoc(ids, seats, last, seat, id, ref, k);
    }
    if k: nat :| ShowsSeatAt(ids, seats, id, ref, k) {
      SeatShownSnoc(ids, seats, last, seat, id, ref, k);
    }
  }

  lemma NoSeatShown(ids: seq<Option<Id>>, seats: seq<Ref>, id: Id, ref: Ref)
    requires |seats| == 0
    ensures !ShowsSeat(ids, seats, id, ref)
  {
  }

  lemma SeatInRange(ids: seq<Option<Id>>, seats: seq<Ref>, id: Id, ref: Ref)
    ensures forall k: nat | ShowsSeatAt(ids, seats, id, ref, k) :: k < |ids|
  {
  }

  // ---------------------------------------------------------------- one call

  /** What one call does to a handle, the service-hall tasks apart. */
  ghost predicate Steps(t: Tables, call: Call, handle: Handle, ref: Ref, out: Outcome) {
    Stands(out.tables, handle, ref) <==>
      if Empties(call, handle.slot, out) then false
      else if out.reply.Shown? && Replaces(call, handle.slot) then Showed(call, out.reply, handle, ref)
      else Stands(t, handle, ref) && !UsesUp(call, handle, out)
  }

  lemma ListSteps(t: Tables, call: Call, handle: Handle, ref: Ref)
    requires call.List? && t.live[SEAT_IDS] == map[] && handle.slot != PHASES
    ensures Steps(t, call, handle, ref, DoList(t, call.slot, call.via, call.rows))
  {
    hide Mint, Resolves, ShowsRow;
    if call.rows.Got? {
      MintedExactly(call.rows.value, t.next, handle.id, ref);
    }
  }

  lemma SeatsStep(t: Tables, call: Call, handle: Handle, ref: Ref)
    requires call.ReadSeats? && t.live[SEAT_IDS] == map[]
    ensures Steps(t, call, handle, ref, DoSeats(t, call.window, call.inventory))
  {
    hide MintSeats, Resolves, ShowsSeat;
    if call.inventory.Got? {
      var seated := MintSeats(call.inventory.value.seats, t.next + 1);
      SeatsExactly(call.inventory.value.seats, t.next + 1, handle.id, ref);
      assert ([Some(t.next)] + seated.ids)[1..] == seated.ids;
    }
  }

  lemma CatalogSteps(t: Tables, call: Call, handle: Handle, ref: Ref)
    requires call.ReadCatalog? && handle.slot != PHASES
    ensures Steps(t, call, handle, ref, DoCatalog(t, call.catalog))
  {
    hide Mint, Rows, ShowsRow;
    if call.catalog.Got? {
      var sources := Mint(Rows(call.catalog.value.sources), t.next);
      var channels := Mint(Rows(call.catalog.value.channels), sources.next);
      MintedExactly(Rows(call.catalog.value.sources), t.next, handle.id, ref);
      MintedExactly(Rows(call.catalog.value.channels), sources.next, handle.id, ref);
      var n := |call.catalog.value.sources|;
      assert (sources.ids + channels.ids)[..n] == sources.ids && (sources.ids + channels.ids)[n..] == channels.ids;
    }
  }

  lemma SpendSteps(t: Tables, call: Call, handle: Handle, ref: Ref)
    requires call.Spend?
    ensures Steps(t, call, handle, ref, DoSpend(t, call.handle, call.translates, call.answer))
  {
  }

  lemma ReserveSteps(t: Tables, call: Call, handle: Handle, ref: Ref)
    requires call.Reserve? && t.live[SEAT_IDS] == map[]
    ensures Steps(t, call, handle, ref, DoReserve(t, call.window, call.seat, call.answer))
  {
  }

  lemma QuietSteps(t: Tables, call: Call, handle: Handle, ref: Ref)
    requires call.ReadHall? || call.Look? || call.ReadSockets? || call.SetSocket? || call.Authenticate?
    requires handle.slot != PHASES && t.live[SEAT_IDS] == map[]
    ensures Steps(t, call, handle, ref, Perform(t, call))
  {
    hide Enter, Resolves;
  }

  lemma CallSteps(t: Tables, call: Call, handle: Handle, ref: Ref)
    requires handle.slot != PHASES && t.live[SEAT_IDS] == map[]
    ensures Steps(t, call, handle, ref, Perform(t, call))
  {
    hide Steps, DoList, DoSeats, DoCatalog, DoSpend, DoReserve, Enter, Resolves;
    match call
    case List(_, _, _) => ListSteps(t, call, handle, ref);
    case ReadSeats(_, _) => SeatsStep(t, call, handle, ref);
    case ReadCatalog(_) => CatalogSteps(t, call, handle, ref);
    case Spend(_, _, _) => SpendSteps(t, call, handle, ref);
    case Reserve(_, _, _) => ReserveSteps(t, call, handle, ref);
    case _ => QuietSteps(t, call, handle, ref);
  }

  // ---------------------------------------------------------------- over runs

  /** The call, among `calls`, whose answer the table still shows; `None` when it shows nothing. */
  ghost function Latest(calls: seq<Call>, slot: Slot): (r: Option<nat>)
    ensures r.Some? ==> r.value < |calls| && Replaces(calls[r.value], slot)
  {
    if |calls| == 0 then None
    else
      var last := |calls| - 1;
      if Empties(calls[last], slot, At(calls, last)) then None
      else if At(calls, last).reply.Shown? && Replaces(calls[last], slot) then Some(last)
      else Latest(calls[..last], slot)
  }

  /** No call from `from` on used the handle up. */
  ghost predicate NotUsedUp(calls: seq<Call>, from: nat, handle: Handle) {
    forall j | from <= j < |calls| :: !UsesUp(calls[j], handle, At(calls, j))
  }

  /** By the history: the latest read showed the handle for this reference, and nothing used it up since. */
  ghost predicate Live(calls: seq<Call>, handle: Handle, ref: Ref) {
    var latest := Latest(calls, handle.slot);
    && latest.Some?
    && Showed(calls[latest.value], At(calls, latest.value).reply, handle, ref)
    && NotUsedUp(calls, latest.value + 1, handle)
  }

  lemma AtPrefix(calls: seq<Call>, i: nat)
    requires 0 < |calls| && i < |calls| - 1
    ensures At(calls[..|calls| - 1], i) == At(calls, i) && calls[..|calls| - 1][i] == calls[i]
  {
    hide Perform;
    assert calls[..|calls| - 1][..i] == calls[..i];
  }

  lemma NotUsedUpSnoc(calls: seq<Call>, from: nat, handle: Handle)
    requires from < |calls|
    ensures var last := |calls| - 1;
            NotUsedUp(calls, from, handle) <==>
            NotUsedUp(calls[..last], from, handle) && !UsesUp(calls[last], handle, At(calls, last))
  {
    hide Perform, UsesUp;
    var last := |calls| - 1;
    forall j | from <= j < last
      ensures At(calls[..last], j) == At(calls, j) && calls[..last][j] == calls[j]
    {
      AtPrefix(calls, j);
    }
  }

  /** The history of a run and of the run without its last call. */
  lemma LiveSnoc(calls: seq<Call>, handle: Handle, ref: Ref)
    requires |calls| > 0
    ensures var last := |calls| - 1; var call, out := calls[last], At(calls, last);
            Live(calls, handle, ref) <==>
              if Empties(call, handle.slot, out) then false
              else if out.reply.Shown? && Replaces(call, handle.slot) then Showed(call, out.reply, handle, ref)
              else Live(calls[..last], handle, ref) && !UsesUp(call, handle, out)
  {
    hide Perform, Showed, Replaces, Empties, UsesUp, NotUsedUp;
    var last := |calls| - 1;
    var latest := Latest(calls, handle.slot);
    if latest == Some(last) {
      NothingLater(calls, handle);
    } else if latest.Some? {
      AtPrefix(calls, latest.value);
      NotUsedUpSnoc(calls, latest.value + 1, handle);
    }
  }

  lemma NothingLater(calls: seq<Call>, handle: Handle)
    ensures NotUsedUp(calls, |calls|, handle)
  {
  }

  /**
   In every reachable state and for every table but that of the service-hall tasks: a handle is
   live and stands for a reference exactly when the latest successful read of the table showed it
   on the row of that reference, nothing emptied the table since, and no call used it up.
   */
  lemma {:induction false} StandsExactly(calls: seq<Call>, handle: Handle, ref: Ref)
    requires handle.slot != PHASES
    ensures Stands(Run(calls), handle, ref) <==> Live(calls, handle, ref)
  {
    if |calls| == 0 {
      NothingStands(handle, ref);
    } else {
      hide Perform, Showed, Replaces, Empties, UsesUp, Live, Stands;
      var last := |calls| - 1;
      StandsExactly(calls[..last], handle, ref);
      RunIsBounded(calls[..last]);
      NoSeatTable(Run(calls[..last]));
      CallSteps(Run(calls[..last]), calls[last], handle, ref);
      assert Run(calls) == At(calls, last).tables;
      LiveSnoc(calls, handle, ref);
    }
  }

  lemma NothingStands(handle: Handle, ref: Ref)
    ensures !Stands(Run([]), handle, ref) && !Live([], handle, ref)
  {
  }

  lemma NoSeatTable(t: Tables)
    requires Bounded(t)
    ensures t.live[SEAT_IDS] == map[]
  {
    hide Inverse, Resolves;
  }

  /** So the live handles are those shown, for whatever reference. */
  lemma LiveExactly(calls: seq<Call>, handle: Handle)
    requires handle.slot != PHASES
    ensures Resolves(Run(calls), handle) <==> exists ref: Ref :: Live(calls, handle, ref)
  {
    hide Live, Run;
    var t := Run(calls);
    forall ref: Ref
      ensures Stands(t, handle, ref) <==> Live(calls, handle, ref)
    {
      StandsExactly(calls, handle, ref);
    }
    if handle.id in t.live[handle.slot] {
      assert Stands(t, handle, t.live[handle.slot][handle.id]);
    }
    if ref: Ref :| Stands(t, handle, ref) {
      assert handle.slot == SEAT_IDS && ref in t.seats && t.seats[ref] == handle.id ==> SeatNamed(t, handle.id);
    }
    if handle.slot == SEAT_IDS && SeatNamed(t, handle.id) {
      var ref: Ref :| ref in t.seats && t.seats[ref] == handle.id;
      assert Stands(t, handle, ref);
    }
  }

  // ---------------------------------------------------------------- one-shot writes

  /**
   A one-shot write of a live handle takes that handle, and no other, unless it is a device: then
   all device handles go. One of a dead handle takes nothing.
   */
  lemma SpendTakesOne(t: Tables, handle: Handle, translates: bool, answer: Answer<()>, other: Handle, ref: Ref)
    requires OneShot(handle.slot)
    ensures var out := DoSpend(t, handle, translates, answer);
            && (Stands(out.tables, other, ref) <==>
                  && Stands(t, other, ref)
                  && !(Resolves(t, handle) && (other == handle || (handle.slot == DEVICES && other.slot == DEVICES))))
            && (out.sent == Some(handle) <==> Resolves(t, handle) && (handle.slot == ASSESSMENTS ==> translates))
            && (out.sent == Some(handle) || out.sent == None)
  {
  }

  /** A reservation takes its seat and no other handle; without a live window or seat it takes nothing. */
  lemma ReserveTakesOne(t: Tables, window: Id, seat: Id, answer: Answer<()>, other: Handle, ref: Ref)
    requires t.live[SEAT_IDS] == map[]
    ensures var out, handle := DoReserve(t, window, seat, answer), Handle(SEAT_IDS, seat);
            var goes := Resolves(t, Handle(WINDOWS, window)) && Resolves(t, handle);
            && (Stands(out.tables, other, ref) <==> Stands(t, other, ref) && !(goes && other == handle))
            && out.sent == if goes then Some(handle) else None
  {
    hide Resolves;
  }

  // ---------------------------------------------------------------- the trees

  /** The handle of the level above through which a call reads. */
  function Through(call: Call): Option<Handle> {
    if call.List? && Parent(call.slot).Some? then Some(call.via[0])
    else if call.ReadSeats? then Some(Handle(WINDOWS, call.window))
    else None
  }

  lemma Above(slot: Slot, parent: Slot)
    requires Parent(slot) == Some(parent)
    ensures parent != slot && parent !in {PHASES, DEVICES, SEAT_IDS, ASSESSMENTS, RESERVES} && !OneShot(parent)
    ensures HangsFrom(slot, parent) && forall top: Slot | HangsFrom(parent, top) :: HangsFrom(slot, top)
    ensures slot !in {ASSESSMENTS, DEVICES, RESERVES}
  {
  }

  lemma ReadWentThrough(t: Tables, call: Call, slot: Slot)
    requires Parent(slot).Some? && Perform(t, call).reply.Shown? && Replaces(call, slot)
    ensures Through(call).Some? && Through(call).value.slot == Parent(slot).value
    ensures Through(call).value.id in t.live[Through(call).value.slot]
  {
    hide Mint, MintSeats, Enter, Rows, SeatNamed;
  }

  /** A call that leaves a table alone leaves the handles of the level above alone. */
  lemma ParentStays(t: Tables, call: Call, slot: Slot, id: Id)
    requires Parent(slot).Some? && t.live[SEAT_IDS] == map[] && id in t.live[Parent(slot).value]
    requires !Empties(call, slot, Perform(t, call))
    ensures id in Perform(t, call).tables.live[Parent(slot).value]
  {
    hide Mint, MintSeats, Enter, Rows, SeatNamed;
    Above(slot, Parent(slot).value);
  }

  /**
   The handle through which a table was last read is still live one level up: every
   handle shown there hangs from the handles above it.
   */
  lemma {:induction false} ParentIsLive(calls: seq<Call>, slot: Slot)
    requires Parent(slot).Some? && Latest(calls, slot).Some?
    ensures var through := Through(calls[Latest(calls, slot).value]);
            && through.Some? && through.value.slot == Parent(slot).value
            && through.value.id in Run(calls).live[Parent(slot).value]
  {
    hide Perform, Empties, Replaces;
    var last := |calls| - 1;
    var t := Run(calls[..last]);
    RunIsBounded(calls[..last]);
    NoSeatTable(t);
    assert At(calls, last).tables == Run(calls);
    if Latest(calls, slot) == Some(last) {
      ReadWentThrough(t, calls[last], slot);
      ParentStays(t, calls[last], slot, Through(calls[last]).value.id);
    } else {
      ParentIsLive(calls[..last], slot);
      ParentStays(t, calls[last], slot, Through(calls[Latest(calls, slot).value]).value.id);
    }
  }

  /** The inventory and its seats come and go together. */
  lemma {:induction false} SeatsFollowInventory(calls: seq<Call>)
    ensures Latest(calls, SEAT_IDS) == Latest(calls, AVAILABILITY)
  {
    hide Perform;
    if |calls| > 0 {
      SeatsFollowInventory(calls[..|calls| - 1]);
    }
  }

  /** Every seat that can be reserved was shown by the read the inventory comes from. */
  lemma SeatsComeFromLatestRead(calls: seq<Call>, ref: Ref)
    requires ref in Run(calls).seats
    ensures Latest(calls, AVAILABILITY).Some?
    ensures var latest := Latest(calls, AVAILABILITY).value;
            && calls[latest].ReadSeats?
            && Showed(calls[latest], At(calls, latest).reply, Handle(SEAT_IDS, Run(calls).seats[ref]), ref)
  {
    hide Run, Perform, Showed;
    var handle := Handle(SEAT_IDS, Run(calls).seats[ref]);
    SeatsFollowInventory(calls);
    StandsExactly(calls, handle, ref);
    assert Stands(Run(calls), handle, ref);
    SeatsAreReadApart(calls[Latest(calls, SEAT_IDS).value]);
  }

  lemma SeatsAreReadApart(call: Call)
    requires Replaces(call, SEAT_IDS)
    ensures call.ReadSeats?
  {
  }

  // ---------------------------------------------------------------- replies

  /** Part of what a call is given cannot be taken: answers that do not translate, a status of no known seat. */
  ghost predicate Unusable(t: Tables, call: Call) {
    match call
    case Spend(handle, translates, _) => handle.slot == ASSESSMENTS && !translates
    case ReadSockets(_, Got(statuses)) => exists k | 0 <= k < |statuses| :: statuses[k] !in t.seats
    case _ => false
  }

  /** The inner client gave no answer. */
  predicate Unanswered(call: Call) {
    match call
    case List(_, _, rows) => rows.Failed?
    case ReadCatalog(catalog) => catalog.Failed?
    case ReadSeats(_, inventory) => inventory.Failed?
    case ReadHall(_, page) => page.Failed?
    case Look(_, answer) => answer.Failed?
    case ReadSockets(_, statuses) => statuses.Failed?
    case SetSocket(_, _, answer) => answer.Failed?
    case Spend(_, _, answer) => answer.Failed?
    case Reserve(_, _, answer) => answer.Failed?
    case Authenticate => false
  }

  /** The calls that show rows. */
  predicate Shows(call: Call) {
    call.List? || call.ReadCatalog? || call.ReadSeats? || call.ReadHall? || call.ReadSockets?
  }

  ghost predicate AllResolve(t: Tables, call: Call) {
    forall handle: Handle | Presents(call, handle) :: Resolves(t, handle)
  }

  /**
   A call is refused exactly when it presents a dead handle or is otherwise unusable; of the others
   exactly those without an answer fail.
   */
  lemma RepliesExactly(t: Tables, call: Call)
    ensures var reply := Perform(t, call).reply;
            && (reply == Refused <==> !AllResolve(t, call) || Unusable(t, call))
            && (reply == Failure <==> AllResolve(t, call) && !Unusable(t, call) && Unanswered(call))
            && (reply.Shown? ==> Shows(call)) && (reply == Done ==> !Shows(call))
  {
    hide Resolves, Mint, MintSeats, Enter, Rows;
    PresentedAre(t, call);
  }

  /** The handles that a call presents, written out. */
  lemma PresentedAre(t: Tables, call: Call)
    ensures AllResolve(t, call) <==>
      match call
      case List(_, via, _) => forall k | 0 <= k < |via| :: Resolves(t, via[k])
      case ReadSeats(window, _) => Resolves(t, Handle(WINDOWS, window))
      case Look(handle, _) => Resolves(t, handle)
      case ReadSockets(availability, _) => Resolves(t, Handle(AVAILABILITY, availability))
      case SetSocket(availability, seat, _) =>
        Resolves(t, Handle(AVAILABILITY, availability)) && Resolves(t, Handle(SEAT_IDS, seat))
      case Spend(handle, _, _) => Resolves(t, handle)
      case Reserve(window, seat, _) => Resolves(t, Handle(WINDOWS, window)) && Resolves(t, Handle(SEAT_IDS, seat))
      case _ => true
  {
    hide Resolves;
    if AllResolve(t, call) {
      match call
      case List(_, via, _) => assert forall k | 0 <= k < |via| :: Presents(call, via[k]);
      case ReadSeats(window, _) => assert Presents(call, Handle(WINDOWS, window));
      case Look(handle, _) => assert Presents(call, handle);
      case ReadSockets(availability, _) => assert Presents(call, Handle(AVAILABILITY, availability));
      case SetSocket(availability, seat, _) =>
        assert Presents(call, Handle(AVAILABILITY, availability)) && Presents(call, Handle(SEAT_IDS, seat));
      case Spend(handle, _, _) => assert Presents(call, handle);
      case Reserve(window, seat, _) =>
        assert Presents(call, Handle(WINDOWS, window)) && Presents(call, Handle(SEAT_IDS, seat));
      case _ =>
    }
  }
}
