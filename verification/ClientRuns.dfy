/** Over every run of calls: one-shot handles, invalidation, and the service-hall identifiers. */
module ClientRuns {
  import opened Wrappers
  import opened ClientTables

  // ---------------------------------------------------------------- one call

  /** No table answers to an identifier that was not minted yet; `SEAT_IDS` has no table of its own. */
  ghost predicate Bounded(t: Tables) {
    && t.live[SEAT_IDS] == map[]
    && Inverse(t.live[PHASES], t.phaseIds)
    && forall handle: Handle | Resolves(t, handle) :: handle.id < t.next
  }

  /** Tables only lose handles or gain newly minted ones. */
  ghost predicate Evolves(t: Tables, t': Tables) {
    && t.next <= t'.next
    && forall handle: Handle | Resolves(t', handle) :: Resolves(t, handle) || t.next <= handle.id < t'.next
  }

  /** The two service-hall maps are inverse to each other. */
  ghost predicate Inverse(byId: map<Id, Ref>, byRef: map<Ref, Id>) {
    && (forall id: Id | id in byId :: byId[id] in byRef && byRef[byId[id]] == id)
    && (forall ref: Ref | ref in byRef :: byRef[ref] in byId && byId[byRef[ref]] == ref)
  }

  /** `hall` continues from the maps at `next`: old references keep their identifiers, new ones are new. */
  ghost predicate Continues(byId: map<Id, Ref>, byRef: map<Ref, Id>, next: Id, hall: Hall) {
    && next <= hall.next
    && Inverse(hall.byId, hall.byRef)
    && (forall ref: Ref | ref in byRef :: ref in hall.byRef && hall.byRef[ref] == byRef[ref])
    && (forall id: Id | id in hall.byId :: id in byId || next <= id < hall.next)
  }

  lemma PlaceContinues(byId: map<Id, Ref>, byRef: map<Ref, Id>, next: Id, hall: Hall, task: Option<Ref>)
    requires Continues(byId, byRef, next, hall) && forall id: Id | id in byId :: id < next
    ensures Continues(byId, byRef, next, Place(hall, task))
    ensures forall ref: Ref | ref in hall.byRef ::
            ref in Place(hall, task).byRef && Place(hall, task).byRef[ref] == hall.byRef[ref]
  {
  }

  lemma {:induction false} EnterContinues(byId: map<Id, Ref>, byRef: map<Ref, Id>, tasks: seq<Option<Ref>>, next: Id)
    requires Inverse(byId, byRef) && forall id: Id | id in byId :: id < next
    ensures Continues(byId, byRef, next, Enter(byId, byRef, tasks, next))
  {
    hide Place, Inverse;
    if |tasks| > 0 {
      EnterContinues(byId, byRef, tasks[..|tasks| - 1], next);
      PlaceContinues(byId, byRef, next, Enter(byId, byRef, tasks[..|tasks| - 1], next), tasks[|tasks| - 1]);
    }
  }

  /** Each row shows the identifier its reference has at the end. */
  lemma {:induction false} EnterShows(
        byId: map<Id, Ref>, byRef: map<Ref, Id>, tasks: seq<Option<Ref>>, next: Id, k: nat)
    requires Inverse(byId, byRef) && forall id: Id | id in byId :: id < next
    requires k < |tasks| && tasks[k].Some?
    ensures var hall := Enter(byId, byRef, tasks, next);
            tasks[k].value in hall.byRef && hall.ids[k] == Some(hall.byRef[tasks[k].value])
  {
    var last := |tasks| - 1;
    EnterContinues(byId, byRef, tasks[..last], next);
    PlaceContinues(byId, byRef, next, Enter(byId, byRef, tasks[..last], next), tasks[last]);
    if k < last {
      EnterShows(byId, byRef, tasks[..last], next, k);
    }
  }

  /** Slot by slot: what `Evolves` takes, without unfolding what resolves. */
  ghost predicate Grows(t: Tables, t': Tables) {
    && t.next <= t'.next
    && (forall slot: Slot, id: Id | id in t'.live[slot] :: id in t.live[slot] || t.next <= id < t'.next)
    && (forall ref: Ref | ref in t'.seats ::
        (ref in t.seats && t.seats[ref] == t'.seats[ref]) || t.next <= t'.seats[ref] < t'.next)
  }

  lemma GrowsEvolves(t: Tables, t': Tables)
    requires Grows(t, t')
    ensures Evolves(t, t')
  {
    forall handle: Handle | Resolves(t', handle)
      ensures Resolves(t, handle) || t.next <= handle.id < t'.next
    {
      if handle.id !in t'.live[handle.slot] {
        var ref: Ref :| ref in t'.seats && t'.seats[ref] == handle.id;
        assert ref in t.seats && t.seats[ref] == handle.id ==> SeatNamed(t, handle.id);
      }
    }
  }

  lemma ListGrows(t: Tables, call: Call)
    requires call.List?
    ensures Grows(t, DoList(t, call.slot, call.via, call.rows).tables)
  {
    hide Mint, Below, ClearsFirst, Resolves;
    if call.rows.Got? {
      MintedAreNew(call.rows.value, t.next);
    }
    var t' := DoList(t, call.slot, call.via, call.rows).tables;
    assert forall slot: Slot | slot != call.slot :: t'.live[slot] == t.live[slot] || t'.live[slot] == map[];
  }

  lemma CatalogGrows(t: Tables, catalog: Answer<Catalog>)
    ensures Grows(t, DoCatalog(t, catalog).tables)
  {
    hide Mint, Rows;
    if catalog.Got? {
      var sources := Rows(catalog.value.sources);
      MintedAreNew(sources, t.next);
      MintedAreNew(Rows(catalog.value.channels), Mint(sources, t.next).next);
    }
  }

  lemma SeatsGrow(t: Tables, window: Id, inventory: Answer<Seats>)
    ensures Grows(t, DoSeats(t, window, inventory).tables)
  {
    hide MintSeats, Resolves;
    if inventory.Got? {
      SeatsAreNew(inventory.value.seats, t.next + 1);
      assert DoSeats(t, window, inventory).reply.Shown? ==>
        DoSeats(t, window, inventory).tables.seats == MintSeats(inventory.value.seats, t.next + 1).seats;
    }
  }

  lemma HallGrows(t: Tables, refresh: bool, page: Answer<HallPage>)
    requires Inverse(t.live[PHASES], t.phaseIds) && forall id: Id | id in t.live[PHASES] :: id < t.next
    ensures Grows(t, DoHall(t, refresh, page).tables)
    ensures Inverse(DoHall(t, refresh, page).tables.live[PHASES], DoHall(t, refresh, page).tables.phaseIds)
  {
    hide Enter;
    if page.Got? {
      var changed := ContextChanged(refresh, page.value);
      var byId, byRef := if changed then map[] else t.live[PHASES], if changed then map[] else t.phaseIds;
      EnterContinues(byId, byRef, page.value.tasks, t.next);
    }
  }

  lemma SpendGrows(t: Tables, handle: Handle, translates: bool, answer: Answer<()>)
    ensures Grows(t, DoSpend(t, handle, translates, answer).tables)
  {
    hide Resolves;
    var t' := DoSpend(t, handle, translates, answer).tables;
    assert forall slot: Slot | slot != handle.slot :: t'.live[slot] == t.live[slot];
  }

  lemma SpentIsGone(t: Tables, handle: Handle, translates: bool, answer: Answer<()>)
    ensures handle.slot != SEAT_IDS ==> var out := DoSpend(t, handle, translates, answer);
            out.sent.Some? ==> Resolves(t, handle) && !Resolves(out.tables, handle)
  {
    hide SeatNamed;
  }

  lemma ReserveGrows(t: Tables, window: Id, seat: Id, answer: Answer<()>)
    requires t.live[SEAT_IDS] == map[]
    ensures var out := DoReserve(t, window, seat, answer);
            && Grows(t, out.tables)
            && (out.sent.Some? ==> Resolves(t, Handle(SEAT_IDS, seat)) && !Resolves(out.tables, Handle(SEAT_IDS, seat)))
  {
  }

  lemma CallGrows(t: Tables, call: Call)
    requires Bounded(t)
    ensures Grows(t, Perform(t, call).tables)
  {
    hide Grows, Inverse, DoList, DoCatalog, DoSeats, DoHall, DoSpend, DoReserve;
    PhasesBounded(t);
    match call
    case List(_, _, _) => ListGrows(t, call);
    case ReadCatalog(catalog) => CatalogGrows(t, catalog);
    case ReadSeats(window, inventory) => SeatsGrow(t, window, inventory);
    case ReadHall(refresh, page) => HallGrows(t, refresh, page);
    case Spend(handle, translates, answer) => SpendGrows(t, handle, translates, answer);
    case Reserve(window, seat, answer) => ReserveGrows(t, window, seat, answer);
    case _ => QuietGrows(t, call);
  }

  lemma QuietGrows(t: Tables, call: Call)
    requires call.Look? || call.ReadSockets? || call.SetSocket? || call.Authenticate?
    ensures Grows(t, Perform(t, call).tables) && Perform(t, call).sent == None
  {
    hide Resolves;
  }

  lemma PhasesBounded(t: Tables)
    requires Bounded(t)
    ensures forall id: Id | id in t.live[PHASES] :: id < t.next
  {
    hide Inverse;
    forall id: Id | id in t.live[PHASES]
      ensures id < t.next
    {
      assert Resolves(t, Handle(PHASES, id));
    }
  }

  /** Only a task page changes the service-hall maps, and an invalidation empties both. */
  lemma PhasesStay(t: Tables, call: Call)
    requires !call.ReadHall?
    ensures var t' := Perform(t, call).tables;
            && (t'.live[SEAT_IDS] == t.live[SEAT_IDS] || t'.live[SEAT_IDS] == map[])
            && if call.Authenticate? then t'.live[PHASES] == map[] && t'.phaseIds == map[]
               else t'.live[PHASES] == t.live[PHASES] && t'.phaseIds == t.phaseIds
  {
    hide Mint, MintSeats, Resolves, Rows;
    if call.List? {
      ListStays(t, call);
    }
  }

  lemma ListStays(t: Tables, call: Call)
    requires call.List?
    ensures var t' := DoList(t, call.slot, call.via, call.rows).tables;
            && t'.live[SEAT_IDS] == t.live[SEAT_IDS] && t'.live[PHASES] == t.live[PHASES] && t'.phaseIds == t.phaseIds
  {
    hide Mint, Resolves;
  }

  /** The service-hall maps stay inverse, and no call fills a table for `SEAT_IDS`. */
  lemma CallKeepsInverse(t: Tables, call: Call)
    requires Bounded(t)
    ensures var t' := Perform(t, call).tables; t'.live[SEAT_IDS] == map[] && Inverse(t'.live[PHASES], t'.phaseIds)
  {
    hide Resolves, Enter;
    PhasesBounded(t);
    if call.ReadHall? {
      HallGrows(t, call.refresh, call.page);
    } else {
      hide Perform;
      PhasesStay(t, call);
    }
  }

  /** What is sent was live before the call, and no longer is after it. */
  lemma SentIsSpent(t: Tables, call: Call)
    requires Bounded(t) && Perform(t, call).sent.Some?
    ensures var out := Perform(t, call);
            Resolves(t, out.sent.value) && !Resolves(out.tables, out.sent.value)
  {
    hide Inverse, Mint, MintSeats, Enter, Resolves, Rows;
    if call.Spend? {
      SpentIsGone(t, call.handle, call.translates, call.answer);
    } else {
      ReserveGrows(t, call.window, call.seat, call.answer);
    }
  }

  /** Every call keeps the tables bounded and mints only new identifiers. */
  lemma CallEvolves(t: Tables, call: Call)
    requires Bounded(t)
    ensures Bounded(Perform(t, call).tables) && Evolves(t, Perform(t, call).tables)
  {
    hide Perform, Inverse, Resolves, Grows;
    CallGrows(t, call);
    GrowsEvolves(t, Perform(t, call).tables);
    CallKeepsInverse(t, call);
  }

  // ---------------------------------------------------------------- over runs

  lemma {:induction false} RunIsBounded(calls: seq<Call>)
    ensures Bounded(Run(calls))
  {
    hide Perform, Bounded;
    if |calls| == 0 {
      StartIsBounded();
    } else {
      RunIsBounded(calls[..|calls| - 1]);
      CallEvolves(Run(calls[..|calls| - 1]), calls[|calls| - 1]);
    }
  }

  lemma StartIsBounded()
    ensures Bounded(Start())
  {
  }

  lemma RunNext(calls: seq<Call>, i: nat)
    requires i < |calls|
    ensures Run(calls[..i + 1]) == At(calls, i).tables
  {
    hide Perform;
    assert calls[..i + 1][..i] == calls[..i];
  }

  /** The handles that resolve only shrink, but for those minted meanwhile. */
  lemma {:induction false} RunEvolves(calls: seq<Call>, i: nat, j: nat)
    requires i <= j <= |calls|
    ensures Evolves(Run(calls[..i]), Run(calls[..j]))
    decreases j
  {
    hide Perform, Bounded, Resolves;
    if i < j {
      RunEvolves(calls, i, j - 1);
      RunNext(calls, j - 1);
      RunIsBounded(calls[..j - 1]);
      CallEvolves(Run(calls[..j - 1]), calls[j - 1]);
    }
  }

  /** The handles a call presents. */
  predicate Presents(call: Call, handle: Handle) {
    match call
    case List(_, via, _) => handle in via
    case ReadCatalog(_) => false
    case ReadSeats(window, _) => handle == Handle(WINDOWS, window)
    case ReadHall(_, _) => false
    case Look(seen, _) => handle == seen
    case ReadSockets(availability, _) => handle == Handle(AVAILABILITY, availability)
    case SetSocket(availability, seat, _) => handle == Handle(AVAILABILITY, availability) ||
        handle == Handle(SEAT_IDS, seat)
    case Spend(spent, _, _) => handle == spent
    case Reserve(window, seat, _) => handle == Handle(WINDOWS, window) || handle == Handle(SEAT_IDS, seat)
    case Authenticate => false
  }

  /** A call that presents a dead handle is refused, changes nothing and sends nothing. */
  lemma DeadIsRefused(t: Tables, call: Call, handle: Handle)
    requires !Resolves(t, handle) && Presents(call, handle)
    ensures Perform(t, call) == Outcome(t, Refused, None)
  {
    hide Resolves;
  }

  /** Once an issued handle is dead, every later call that presents it is refused. */
  lemma DeadStaysDead(calls: seq<Call>, i: nat, j: nat, handle: Handle)
    requires i <= j < |calls| && handle.id < Run(calls[..i]).next && !Resolves(Run(calls[..i]), handle)
    ensures !Resolves(Run(calls[..j]), handle)
    ensures Presents(calls[j], handle) ==> At(calls, j) == Outcome(Run(calls[..j]), Refused, None)
  {
    hide Perform, Resolves, Presents;
    RunEvolves(calls, i, j);
    if Presents(calls[j], handle) {
      DeadIsRefused(Run(calls[..j]), calls[j], handle);
    }
  }

  /**
   A one-shot handle leaves at most once in any run: whatever was answered, no later call
   sends it again, and every later call that presents it is refused.
   */
  lemma AtMostOnce(calls: seq<Call>, i: nat, j: nat)
    requires i < j < |calls| && At(calls, i).sent.Some?
    ensures At(calls, j).sent != At(calls, i).sent
    ensures Presents(calls[j], At(calls, i).sent.value) ==> At(calls, j) == Outcome(Run(calls[..j]), Refused, None)
  {
    hide Perform, Resolves, Presents, Inverse;
    var handle := At(calls, i).sent.value;
    RunIsBounded(calls[..i]);
    SentIsSpent(Run(calls[..i]), calls[i]);
    RunEvolves(calls, i, i + 1);
    RunNext(calls, i);
    DeadStaysDead(calls, i + 1, j, handle);
    RunIsBounded(calls[..j]);
    if At(calls, j).sent.Some? {
      SentIsSpent(Run(calls[..j]), calls[j]);
    }
  }

  /** A handle that was never issued is refused wherever it is presented. */
  lemma InventedIsRefused(calls: seq<Call>, call: Call, handle: Handle)
    requires handle.id >= Run(calls).next && Presents(call, handle)
    ensures Perform(Run(calls), call) == Outcome(Run(calls), Refused, None)
  {
    hide Perform, Resolves, Presents, Inverse;
    RunIsBounded(calls);
    DeadIsRefused(Run(calls), call, handle);
  }

  /**
   Past a login, logout or any other step that invalidates, a handle issued before it is
   refused for ever, unless it is a library reservation ...
   */
  lemma InvalidatedIsRefused(calls: seq<Call>, i: nat, j: nat, handle: Handle)
    requires i < j < |calls| && calls[i].Authenticate?
    requires handle.id < Run(calls[..i]).next && handle.slot != RESERVATIONS
    requires Presents(calls[j], handle)
    ensures At(calls, j) == Outcome(Run(calls[..j]), Refused, None)
  {
    hide Presents, Inverse;
    RunNext(calls, i);
    InvalidatedIsDead(Run(calls[..i]), handle);
    hide Perform, Resolves;
    DeadStaysDead(calls, i + 1, j, handle);
  }

  lemma InvalidatedIsDead(t: Tables, handle: Handle)
    ensures Resolves(Invalidated(t), handle) <==> handle.slot == RESERVATIONS && Resolves(t, handle)
  {
  }

  /**
   ... which is not touched: of all one-shot handles exactly the live reservations can
   still be spent right after an invalidation.
   */
  lemma OnlyReservationsSurvive(t: Tables, handle: Handle, answer: Answer<()>)
    requires OneShot(handle.slot)
    ensures DoSpend(Invalidated(t), handle, true, answer).sent == Some(handle) <==>
            handle.slot == RESERVATIONS && Resolves(t, handle)
  {
    InvalidatedIsDead(t, handle);
  }

  /**
   A read that does not succeed leaves every table as it was, but for the three reads
   that empty their own table before they ask.
   */
  lemma FailedReadsKeepTables(t: Tables, call: Call)
    requires call.List? || call.ReadCatalog? || call.ReadSeats? || call.ReadHall? || call.Look? || call.ReadSockets?
    requires !Perform(t, call).reply.Shown?
    ensures Perform(t, call).tables ==
            if call.List? && ClearsFirst(call.slot) then t.(live := t.live[call.slot := map[]]) else t
  {
    hide Resolves, Mint, MintSeats, Enter, Rows;
  }

  /** A socket status names the seat it belongs to, by the identifier of the latest seat read. */
  lemma SocketsNameTheirSeats(t: Tables, availability: Id, statuses: seq<Ref>)
    requires DoSockets(t, availability, Got(statuses)).reply.Shown?
    ensures var ids := DoSockets(t, availability, Got(statuses)).reply.ids;
      && |ids| == |statuses|
      && forall k | 0 <= k < |statuses| ::
           statuses[k] in t.seats && ids[k] == Some(t.seats[statuses[k]]) && Resolves(t, Handle(SEAT_IDS, ids[k].value))
  {
    var ids := DoSockets(t, availability, Got(statuses)).reply.ids;
    forall k | 0 <= k < |statuses|
      ensures statuses[k] in t.seats && ids[k] == Some(t.seats[statuses[k]])
      ensures Resolves(t, Handle(SEAT_IDS, ids[k].value))
    {
      var ref: Ref := statuses[k];
      assert ref in t.seats && t.seats[ref] == ids[k].value;
      assert SeatNamed(t, ids[k].value);
    }
  }

  /** No two seats share an identifier. */
  ghost predicate SeatsDiffer(t: Tables) {
    forall s: Ref, s': Ref | s in t.seats && s' in t.seats && t.seats[s] == t.seats[s'] :: s == s'
  }

  lemma SeatsShrink(t: Tables, call: Call)
    requires !call.ReadSeats?
    ensures forall s: Ref | s in Perform(t, call).tables.seats ::
            s in t.seats && Perform(t, call).tables.seats[s] == t.seats[s]
  {
    hide Mint, Enter, Resolves, Rows;
  }

  lemma SeatReadDiffers(t: Tables, window: Id, inventory: Answer<Seats>)
    requires SeatsDiffer(t)
    ensures SeatsDiffer(DoSeats(t, window, inventory).tables)
  {
    hide Resolves, MintSeats;
    if inventory.Got? {
      SeatsAreNew(inventory.value.seats, t.next + 1);
    }
  }

  lemma {:induction false} RunSeatsDiffer(calls: seq<Call>)
    ensures SeatsDiffer(Run(calls))
  {
    if |calls| > 0 {
      var t, call := Run(calls[..|calls| - 1]), calls[|calls| - 1];
      RunSeatsDiffer(calls[..|calls| - 1]);
      if call.ReadSeats? {
        SeatReadDiffers(t, call.window, call.inventory);
      } else {
        SeatsShrink(t, call);
        hide Perform;
      }
    }
  }

  ghost predicate NoRepeat(handles: seq<Handle>) {
    forall i, j | 0 <= i < j < |handles| :: handles[i] != handles[j]
  }

  /** What was sent was issued, and resolves no more. */
  lemma {:induction false} SentIsDead(calls: seq<Call>)
    ensures forall i | 0 <= i < |Sent(calls)| ::
              Sent(calls)[i].id < Run(calls).next && !Resolves(Run(calls), Sent(calls)[i])
  {
    hide Perform, Resolves, Inverse;
    if |calls| > 0 {
      var before := calls[..|calls| - 1];
      SentIsDead(before);
      RunIsBounded(before);
      CallEvolves(Run(before), calls[|calls| - 1]);
      if At(calls, |calls| - 1).sent.Some? {
        SentIsSpent(Run(before), calls[|calls| - 1]);
      }
    }
  }

  /** Over every run, the list of everything sent repeats no handle. */
  lemma {:induction false} SentOnce(calls: seq<Call>)
    ensures NoRepeat(Sent(calls))
  {
    hide Perform, Resolves, Inverse;
    if |calls| > 0 {
      var before := calls[..|calls| - 1];
      SentOnce(before);
      SentIsDead(before);
      RunIsBounded(before);
      if At(calls, |calls| - 1).sent.Some? {
        SentIsSpent(Run(before), calls[|calls| - 1]);
      }
    }
  }

  /** A run: a reservation is read, its reader logs out, and its handle is sent all the same. */
  lemma ReservationOutlivesLogout(ref: Ref)
    ensures var handle := Handle(RESERVATIONS, 0);
            var calls: seq<Call> := [
              List(RESERVATIONS, [], Got([Some(ref)])), Authenticate, Spend(handle, true, Got(()))];
            At(calls, 0).reply == Shown([Some(0)]) && At(calls, 2).sent == Some(handle)
  {
    var list: Call := List(RESERVATIONS, [], Got([Some(ref)]));
    var calls: seq<Call> := [list, Authenticate, Spend(Handle(RESERVATIONS, 0), true, Got(()))];
    assert calls[..0] == [] && calls[..1] == [list] && calls[..2] == [list, Authenticate];
    assert Run([]) == Start();
    assert [Some(ref)][..0] == [];
    assert Mint([Some(ref)], 0) == Minted(map[0 := ref], [Some(0)], 1);
    RunNext(calls, 0);
    assert 0 in Run(calls[..1]).live[RESERVATIONS];
    RunNext(calls, 1);
    assert 0 in Run(calls[..2]).live[RESERVATIONS];
  }
}
