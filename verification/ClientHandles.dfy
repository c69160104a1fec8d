/**
 The client handle as an object: each call changes its tables step by step, and is
 proved to be one more call of the run it has made.
 */
module ClientHandles {
  import opened Wrappers
  import opened ClientTables
  import opened ClientRuns

  lemma RunExtends(calls: seq<Call>, call: Call)
    ensures Run(calls + [call]) == Perform(Run(calls), call).tables
    ensures var sent := Perform(Run(calls), call).sent;
            Sent(calls + [call]) == Sent(calls) + (if sent.Some? then [sent.value] else [])
    ensures NoRepeat(Sent(calls + [call]))
  {
    hide Perform, NoRepeat;
    assert (calls + [call])[..|calls|] == calls;
    SentOnce(calls + [call]);
  }

  lemma MintExtends(rows: seq<Option<Ref>>, next: Id, k: nat)
    requires k < |rows|
    ensures var before, after := Mint(rows[..k], next), Mint(rows[..k + 1], next);
            after == match rows[k]
                     case None => before.(ids := before.ids + [None])
                     case Some(ref) =>
                       var id := before.next;
                       Minted(before.table[id := ref], before.ids + [Some(id)], id + 1)
  {
    assert rows[..k + 1][..k] == rows[..k];
  }

  lemma SeatsExtend(seats: seq<Ref>, next: Id, k: nat)
    requires k < |seats|
    ensures var before, after := MintSeats(seats[..k], next), MintSeats(seats[..k + 1], next);
            after == Seated(before.seats[seats[k] := before.next], before.ids + [Some(before.next)], before.next + 1)
  {
    assert seats[..k + 1][..k] == seats[..k];
  }

  lemma EnterExtends(byId: map<Id, Ref>, byRef: map<Ref, Id>, tasks: seq<Option<Ref>>, next: Id, k: nat)
    requires k < |tasks|
    ensures Enter(byId, byRef, tasks[..k + 1], next) == Place(Enter(byId, byRef, tasks[..k], next), tasks[k])
  {
    assert tasks[..k + 1][..k] == tasks[..k];
  }

  lemma EnterNothing(byId: map<Id, Ref>, byRef: map<Ref, Id>, next: Id)
    ensures Enter(byId, byRef, [], next) == Hall(byId, byRef, [], next)
  {
  }

  lemma MintNothing(next: Id)
    ensures Mint([], next) == Minted(map[], [], next) && MintSeats([], next) == Seated(map[], [], next)
  {
  }

  /** The tables of the service hall, the devices, the news and the courses. */
  predicate Personal(slot: Slot) {
    || slot == PHASES || slot == DEVICES || slot == NEWS_SOURCES || slot == NEWS_CHANNELS || slot == ARTICLES
    || slot == SUBSCRIPTIONS || slot == COURSES || slot == HOMEWORK || slot == FILES
  }

  /** The days a caller may name; only the first two are accepted. */
  datatype Day = Today | Tomorrow | Unknown

  class ClientHandle {
    /** The next random identifier. */
    var next: Id
    /** The tables that map identifiers to references, by slot. */
    var live: Live
    /** The two tables that map references to identifiers. */
    var phaseIds: map<Ref, Id>
    var seats: map<Ref, Id>
    /** Every call so far. */
    ghost var calls: seq<Call>
    /** Every handle sent so far. */
    ghost var dispatched: seq<Handle>

    ghost function View(): Tables
      reads this
    {
      Tables(next, live, phaseIds, seats)
    }

    /** The object is where its calls lead. */
    ghost predicate Valid()
      reads this
    {
      View() == Run(calls) && dispatched == Sent(calls)
    }

    /** The object made one more call, with these results. */
    twostate predicate Did(call: Call, new reply: Reply, new sent: Option<Handle>)
      reads this
    {
      && Valid() && calls == old(calls) + [call]
      && Outcome(View(), reply, sent) == Perform(old(View()), call)
      && dispatched == old(dispatched) + (if sent.Some? then [sent.value] else []) && NoRepeat(dispatched)
    }

    constructor ()
      ensures Valid() && calls == []
    {
      next, live, phaseIds, seats, calls, dispatched := 0, NoTables(), map[], map[], [], [];
    }

    method NewIdentifier() returns (id: Id)
      modifies this`next
      ensures id == old(next) && next == id + 1
    {
      id := next;
      next := next + 1;
    }

    /** The loop over the rows that every list read has. */
    method MintRows(rows: seq<Option<Ref>>) returns (table: map<Id, Ref>, ids: seq<Option<Id>>)
      modifies this`next
      ensures Minted(table, ids, next) == Mint(rows, old(next))
    {
      hide Mint;
      table, ids := map[], [];
      ghost var start := next;
      MintNothing(start);
      assert rows[..0] == [];
      for k := 0 to |rows|
        invariant Minted(table, ids, next) == Mint(rows[..k], start)
      {
        MintExtends(rows, start, k);
        match rows[k] {
          case None => ids := ids + [None];
          case Some(ref) =>
            var id := NewIdentifier();
            table := table[id := ref];
            ids := ids + [Some(id)];
        }
      }
      assert rows[..|rows|] == rows;
    }

    /** The loop over the seats of an inventory. */
    method MintSeatRows(rows: seq<Ref>) returns (table: map<Ref, Id>, ids: seq<Option<Id>>)
      modifies this`next
      ensures Seated(table, ids, next) == MintSeats(rows, old(next))
    {
      hide MintSeats;
      table, ids := map[], [];
      ghost var start := next;
      MintNothing(start);
      assert rows[..0] == [];
      for k := 0 to |rows|
        invariant Seated(table, ids, next) == MintSeats(rows[..k], start)
      {
        SeatsExtend(rows, start, k);
        var id := NewIdentifier();
        table := table[rows[k] := id];
        ids := ids + [Some(id)];
      }
      assert rows[..|rows|] == rows;
    }

    /** A list that is read through no handle and has no table below its own. */
    method ListInto(slot: Slot, rows: Answer<seq<Option<Ref>>>) returns (reply: Reply)
      requires Valid()
      requires slot == RESERVATIONS || slot == SUBSCRIPTIONS || ClearsFirst(slot)
      modifies this
      ensures Did(List(slot, [], rows), reply, None)
    {
      hide Mint, Run, Sent, NoRepeat, SeatNamed;
      RunExtends(calls, List(slot, [], rows));
      calls := calls + [List(slot, [], rows)];
      dispatched := Sent(calls);
      if ClearsFirst(slot) {
        live := live[slot := map[]];
      }
      if rows.Failed? {
        return Failure;
      }
      var table, ids := MintRows(rows.value);
      live := live[slot := table];
      assert live == ClearBelow(old(live), slot)[slot := table];
      return Shown(ids);
    }

    /** A list that is read through a course. */
    method ListOfCourse(slot: Slot, course: Id, rows: Answer<seq<Option<Ref>>>) returns (reply: Reply)
      requires Valid() && (slot == HOMEWORK || slot == FILES)
      modifies this
      ensures Did(List(slot, [Handle(COURSES, course)], rows), reply, None)
    {
      hide Mint, Run, Sent, NoRepeat, SeatNamed;
      RunExtends(calls, List(slot, [Handle(COURSES, course)], rows));
      calls := calls + [List(slot, [Handle(COURSES, course)], rows)];
      dispatched := Sent(calls);
      if course !in live[COURSES] {
        return Refused;
      }
      if rows.Failed? {
        return Failure;
      }
      var table, ids := MintRows(rows.value);
      live := live[slot := table];
      assert live == ClearBelow(old(live), slot)[slot := table];
      return Shown(ids);
    }

    /** A one-shot write that takes its handle out of the table before it is sent. */
    method TakeOut(slot: Slot, id: Id, answer: Answer<()>) returns (reply: Reply, sent: Option<Handle>)
      requires Valid() && (slot == RESERVATIONS || slot == ARTICLES || slot == SUBSCRIPTIONS)
      modifies this
      ensures Did(Spend(Handle(slot, id), true, answer), reply, sent)
    {
      hide Run, SeatNamed, Sent, NoRepeat;
      RunExtends(calls, Spend(Handle(slot, id), true, answer));
      calls := calls + [Spend(Handle(slot, id), true, answer)];
      dispatched := Sent(calls);
      if id !in live[slot] {
        return Refused, None;
      }
      live := live[slot := live[slot] - {id}];
      return if answer.Failed? then Failure else Done, Some(Handle(slot, id));
    }

    /** `clear_library_availability_descendants`. */
    method ClearAvailabilityDescendants()
      modifies this`live, this`seats
      ensures live == old(live)[AVAILABILITY := map[]] && seats == map[]
    {
      live := live[AVAILABILITY := map[]];
      seats := map[];
    }

    /** `clear_library_window_descendants`. */
    method ClearWindowDescendants()
      modifies this`live, this`seats
      ensures live == old(live)[WINDOWS := map[]][AVAILABILITY := map[]] && seats == map[]
    {
      live := live[WINDOWS := map[]];
      ClearAvailabilityDescendants();
    }

    /** `clear_library_section_descendants`. */
    method ClearSectionDescendants()
      modifies this`live, this`seats
      ensures live == old(live)[SECTIONS := map[]][WINDOWS := map[]][AVAILABILITY := map[]] && seats == map[]
    {
      live := live[SECTIONS := map[]];
      ClearWindowDescendants();
    }

    /** `clear_library_descendants`. */
    method ClearLibraryDescendants()
      modifies this`live, this`seats
      ensures live == old(live)[FLOORS := map[]][SECTIONS := map[]][WINDOWS := map[]][AVAILABILITY := map[]]
      ensures seats == map[]
    {
      live := live[FLOORS := map[]];
      ClearSectionDescendants();
    }

    /** `library_directory`. */
    method LibraryDirectory(rows: Answer<seq<Option<Ref>>>) returns (reply: Reply)
      requires Valid()
      modifies this
      ensures Did(List(LIBRARIES, [], rows), reply, None)
    {
      hide Mint, Run, Sent, NoRepeat, SeatNamed;
      RunExtends(calls, List(LIBRARIES, [], rows));
      calls := calls + [List(LIBRARIES, [], rows)];
      dispatched := Sent(calls);
      if rows.Failed? {
        return Failure;
      }
      live := live[LIBRARIES := map[]];
      ClearLibraryDescendants();
      var table, ids := MintRows(rows.value);
      live := live[LIBRARIES := table];
      assert live == ClearBelow(old(live), LIBRARIES)[LIBRARIES := table];
      return Shown(ids);
    }

    /** `library_floors`. */
    method LibraryFloors(library: Id, rows: Answer<seq<Option<Ref>>>) returns (reply: Reply)
      requires Valid()
      modifies this
      ensures Did(List(FLOORS, [Handle(LIBRARIES, library)], rows), reply, None)
    {
      hide Mint, Run, Sent, NoRepeat, SeatNamed;
      RunExtends(calls, List(FLOORS, [Handle(LIBRARIES, library)], rows));
      calls := calls + [List(FLOORS, [Handle(LIBRARIES, library)], rows)];
      dispatched := Sent(calls);
      if library !in live[LIBRARIES] {
        return Refused;
      }
      if rows.Failed? {
        return Failure;
      }
      live := live[FLOORS := map[]];
      ClearSectionDescendants();
      var table, ids := MintRows(rows.value);
      live := live[FLOORS := table];
      assert live == ClearBelow(old(live), FLOORS)[FLOORS := table];
      return Shown(ids);
    }

    /** `library_sections`: a day it does not know is refused before the handle is looked at. */
    method LibrarySections(floor: Id, day: Day, rows: Answer<seq<Option<Ref>>>) returns (reply: Reply)
      requires Valid()
      modifies this
      ensures day.Unknown? ==> reply == Refused && Valid() && View() == old(View()) && calls == old(calls)
      ensures !day.Unknown? ==> Did(List(SECTIONS, [Handle(FLOORS, floor)], rows), reply, None)
    {
      hide Mint, Run, Sent, NoRepeat, SeatNamed;
      if day.Unknown? {
        return Refused;
      }
      RunExtends(calls, List(SECTIONS, [Handle(FLOORS, floor)], rows));
      calls := calls + [List(SECTIONS, [Handle(FLOORS, floor)], rows)];
      dispatched := Sent(calls);
      if floor !in live[FLOORS] {
        return Refused;
      }
      if rows.Failed? {
        return Failure;
      }
      live := live[SECTIONS := map[]];
      ClearWindowDescendants();
      var table, ids := MintRows(rows.value);
      live := live[SECTIONS := table];
      assert live == ClearBelow(old(live), SECTIONS)[SECTIONS := table];
      return Shown(ids);
    }

    /** `library_time_windows`. */
    method LibraryTimeWindows(section: Id, rows: Answer<seq<Option<Ref>>>) returns (reply: Reply)
      requires Valid()
      modifies this
      ensures Did(List(WINDOWS, [Handle(SECTIONS, section)], rows), reply, None)
    {
      hide Mint, Run, Sent, NoRepeat, SeatNamed;
      RunExtends(calls, List(WINDOWS, [Handle(SECTIONS, section)], rows));
      calls := calls + [List(WINDOWS, [Handle(SECTIONS, section)], rows)];
      dispatched := Sent(calls);
      if section !in live[SECTIONS] {
        return Refused;
      }
      if rows.Failed? {
        return Failure;
      }
      live := live[WINDOWS := map[]];
      ClearAvailabilityDescendants();
      var table, ids := MintRows(rows.value);
      live := live[WINDOWS := table];
      assert live == ClearBelow(old(live), WINDOWS)[WINDOWS := table];
      return Shown(ids);
    }

    /** `library_seats` with `library_availability_result`. */
    method LibrarySeats(window: Id, inventory: Answer<Seats>) returns (reply: Reply)
      requires Valid()
      modifies this
      ensures Did(ReadSeats(window, inventory), reply, None)
    {
      hide MintSeats, Run, Sent, NoRepeat;
      RunExtends(calls, ReadSeats(window, inventory));
      calls := calls + [ReadSeats(window, inventory)];
      dispatched := Sent(calls);
      if window !in live[WINDOWS] {
        return Refused;
      }
      if inventory.Failed? {
        return Failure;
      }
      ClearAvailabilityDescendants();
      var availability := NewIdentifier();
      var table, ids := MintSeatRows(inventory.value.seats);
      seats := table;
      live := live[AVAILABILITY := map[availability := inventory.value.availability]];
      assert live == old(live)[AVAILABILITY := map[availability := inventory.value.availability]];
      return Shown([Some(availability)] + ids);
    }

    /** `library_sockets` with `library_sockets_result`: every status must be of a seat of the latest inventory. */
    method LibrarySockets(availability: Id, statuses: Answer<seq<Ref>>) returns (reply: Reply)
      requires Valid()
      modifies this
      ensures Did(ReadSockets(availability, statuses), reply, None)
    {
      hide Run, SeatNamed, Sent, NoRepeat;
      RunExtends(calls, ReadSockets(availability, statuses));
      calls := calls + [ReadSockets(availability, statuses)];
      dispatched := Sent(calls);
      if availability !in live[AVAILABILITY] {
        return Refused;
      }
      if statuses.Failed? {
        return Failure;
      }
      var ids: seq<Option<Id>> := [];
      for k := 0 to |statuses.value|
        invariant |ids| == k
        invariant forall m | 0 <= m < k :: statuses.value[m] in seats && ids[m] == Some(seats[statuses.value[m]])
        invariant live == old(live) && seats == old(seats) && phaseIds == old(phaseIds) && next == old(next)
        invariant dispatched == Sent(calls) && calls == old(calls) + [ReadSockets(availability, statuses)]
      {
        if statuses.value[k] !in seats {
          return Refused;
        }
        ids := ids + [Some(seats[statuses.value[k]])];
      }
      ghost var shown := DoSockets(old(View()), availability, statuses).reply;
      assert forall m | 0 <= m < |ids| :: shown.ids[m] == ids[m];
      assert shown.ids == ids;
      return Shown(ids);
    }

    /** `library_reservations`. */
    method LibraryReservations(rows: Answer<seq<Option<Ref>>>) returns (reply: Reply)
      requires Valid()
      modifies this
      ensures Did(List(RESERVATIONS, [], rows), reply, None)
    {
      reply := ListInto(RESERVATIONS, rows);
    }

    /** `library_reserve`: the seat leaves the table before the request does. */
    method LibraryReserve(window: Id, seat: Id, answer: Answer<()>) returns (reply: Reply, sent: Option<Handle>)
      requires Valid()
      modifies this
      ensures Did(Reserve(window, seat, answer), reply, sent)
    {
      hide Run, Sent, NoRepeat;
      RunExtends(calls, Reserve(window, seat, answer));
      RunSeatsDiffer(calls);
      RunIsBounded(calls);
      calls := calls + [Reserve(window, seat, answer)];
      dispatched := Sent(calls);
      if window !in live[WINDOWS] {
        return Refused, None;
      }
      if forall ref: Ref | ref in seats :: seats[ref] != seat {
        return Refused, None;
      }
      var found :| found in seats && seats[found] == seat;
      seats := map other | other in seats && other != found :: seats[other];
      assert seats == map ref: Ref | ref in old(seats) && old(seats)[ref] != seat :: old(seats)[ref];
      sent := Some(Handle(SEAT_IDS, seat));
      reply := if answer.Failed? then Failure else Done;
    }

    /** `library_cancel`. */
    method LibraryCancel(id: Id, answer: Answer<()>) returns (reply: Reply, sent: Option<Handle>)
      requires Valid()
      modifies this
      ensures Did(Spend(Handle(RESERVATIONS, id), true, answer), reply, sent)
    {
      reply, sent := TakeOut(RESERVATIONS, id, answer);
    }

    /** `library_set_socket_state`: neither handle is used up. */
    method LibrarySetSocketState(availability: Id, seat: Id, answer: Answer<()>) returns (reply: Reply)
      requires Valid()
      modifies this
      ensures Did(SetSocket(availability, seat, answer), reply, None)
    {
      hide Run, Inverse, Sent, NoRepeat;
      RunIsBounded(calls);
      RunExtends(calls, SetSocket(availability, seat, answer));
      calls := calls + [SetSocket(availability, seat, answer)];
      dispatched := Sent(calls);
      if availability !in live[AVAILABILITY] {
        return Refused;
      }
      if forall ref: Ref | ref in seats :: seats[ref] != seat {
        return Refused;
      }
      return if answer.Failed? then Failure else Done;
    }

    /** The loop over the tasks of a page. */
    method EnterTasks(tasks: seq<Option<Ref>>) returns (ids: seq<Option<Id>>)
      modifies this`live, this`phaseIds, this`next
      ensures live == old(live)[PHASES := live[PHASES]]
      ensures Hall(live[PHASES], phaseIds, ids, next) == Enter(old(live[PHASES]), old(phaseIds), tasks, old(next))
    {
      hide Enter, Sent, NoRepeat;
      ids := [];
      ghost var byId, byRef, start := live[PHASES], phaseIds, next;
      EnterNothing(byId, byRef, start);
      assert tasks[..0] == [];
      for k := 0 to |tasks|
        invariant Hall(live[PHASES], phaseIds, ids, next) == Enter(byId, byRef, tasks[..k], start)
        invariant live == old(live)[PHASES := live[PHASES]]
      {
        EnterExtends(byId, byRef, tasks, start, k);
        match tasks[k] {
          case None => ids := ids + [None];
          case Some(ref) =>
            if ref !in phaseIds {
              var minted := NewIdentifier();
              phaseIds := phaseIds[ref := minted];
            }
            var id := phaseIds[ref];
            live := live[PHASES := live[PHASES][id := ref]];
            ids := ids + [Some(id)];
        }
      }
      assert tasks[..|tasks|] == tasks;
    }

    /** `service_hall_tasks` with `service_hall_task_list_result`. */
    method ServiceHallTasks(refresh: bool, page: Answer<HallPage>) returns (reply: Reply)
      requires Valid()
      modifies this
      ensures Did(ReadHall(refresh, page), reply, None)
    {
      hide Enter, Run, Sent, NoRepeat;
      RunExtends(calls, ReadHall(refresh, page));
      calls := calls + [ReadHall(refresh, page)];
      dispatched := Sent(calls);
      if page.Failed? {
        return Failure;
      }
      if page.value.phases && (refresh || page.value.live || page.value.stale) {
        live := live[PHASES := map[]];
        phaseIds := map[];
      }
      var ids := EnterTasks(page.value.tasks);
      return Shown(ids);
    }

    /** `news_catalog` with `news_catalog_result`. */
    method NewsCatalog(catalog: Answer<Catalog>) returns (reply: Reply)
      requires Valid()
      modifies this
      ensures Did(ReadCatalog(catalog), reply, None)
    {
      hide Mint, Run, Rows, Sent, NoRepeat;
      RunExtends(calls, ReadCatalog(catalog));
      calls := calls + [ReadCatalog(catalog)];
      dispatched := Sent(calls);
      if catalog.Failed? {
        return Failure;
      }
      var sources, sourceIds := MintRows(Rows(catalog.value.sources));
      var channels, channelIds := MintRows(Rows(catalog.value.channels));
      live := live[NEWS_SOURCES := sources];
      live := live[NEWS_CHANNELS := channels];
      return Shown(sourceIds + channelIds);
    }

    /**
     `news_articles`, `news_search`, `news_favorites` and `news_subscription_articles`: they differ in
     their handles.
     */
    method NewsArticles(via: seq<Handle>, rows: Answer<seq<Option<Ref>>>) returns (reply: Reply)
      requires Valid() && forall k | 0 <= k < |via| :: NewsFilter(via[k])
      modifies this
      ensures Did(List(ARTICLES, via, rows), reply, None)
    {
      hide Mint, Run, Sent, NoRepeat, SeatNamed;
      RunExtends(calls, List(ARTICLES, via, rows));
      calls := calls + [List(ARTICLES, via, rows)];
      dispatched := Sent(calls);
      for k := 0 to |via|
        invariant forall m | 0 <= m < k :: via[m].id in live[via[m].slot]
        invariant live == old(live) && seats == old(seats) && phaseIds == old(phaseIds) && next == old(next)
        invariant dispatched == Sent(calls) && calls == old(calls) + [List(ARTICLES, via, rows)]
      {
        if via[k].id !in live[via[k].slot] {
          return Refused;
        }
      }
      if rows.Failed? {
        return Failure;
      }
      var table, ids := MintRows(rows.value);
      live := live[ARTICLES := table];
      assert live == ClearBelow(old(live), ARTICLES)[ARTICLES := table];
      return Shown(ids);
    }

    /** `news_subscriptions`. */
    method NewsSubscriptions(rows: Answer<seq<Option<Ref>>>) returns (reply: Reply)
      requires Valid()
      modifies this
      ensures Did(List(SUBSCRIPTIONS, [], rows), reply, None)
    {
      reply := ListInto(SUBSCRIPTIONS, rows);
    }

    /** `news_add_favorite` and `news_remove_favorite`: both take the article out before they send it. */
    method NewsFavorite(id: Id, answer: Answer<()>) returns (reply: Reply, sent: Option<Handle>)
      requires Valid()
      modifies this
      ensures Did(Spend(Handle(ARTICLES, id), true, answer), reply, sent)
    {
      reply, sent := TakeOut(ARTICLES, id, answer);
    }

    /** `news_remove_subscription`. */
    method NewsRemoveSubscription(id: Id, answer: Answer<()>) returns (reply: Reply, sent: Option<Handle>)
      requires Valid()
      modifies this
      ensures Did(Spend(Handle(SUBSCRIPTIONS, id), true, answer), reply, sent)
    {
      reply, sent := TakeOut(SUBSCRIPTIONS, id, answer);
    }

    /** `learn_courses`: the homework and file tables go first. */
    method LearnCourses(rows: Answer<seq<Option<Ref>>>) returns (reply: Reply)
      requires Valid()
      modifies this
      ensures Did(List(COURSES, [], rows), reply, None)
    {
      hide Mint, Run, Sent, NoRepeat, SeatNamed;
      RunExtends(calls, List(COURSES, [], rows));
      calls := calls + [List(COURSES, [], rows)];
      dispatched := Sent(calls);
      if rows.Failed? {
        return Failure;
      }
      live := live[HOMEWORK := map[]];
      live := live[FILES := map[]];
      var table, ids := MintRows(rows.value);
      live := live[COURSES := table];
      assert live == ClearBelow(old(live), COURSES)[COURSES := table];
      return Shown(ids);
    }

    /** `learn_homework`. */
    method LearnHomework(course: Id, rows: Answer<seq<Option<Ref>>>) returns (reply: Reply)
      requires Valid()
      modifies this
      ensures Did(List(HOMEWORK, [Handle(COURSES, course)], rows), reply, None)
    {
      reply := ListOfCourse(HOMEWORK, course, rows);
    }

    /** `learn_files`. */
    method LearnFiles(course: Id, rows: Answer<seq<Option<Ref>>>) returns (reply: Reply)
      requires Valid()
      modifies this
      ensures Did(List(FILES, [Handle(COURSES, course)], rows), reply, None)
    {
      reply := ListOfCourse(FILES, course, rows);
    }

    /** `assessment_list_result`: the table is emptied before the read. */
    method AssessmentList(rows: Answer<seq<Option<Ref>>>) returns (reply: Reply)
      requires Valid()
      modifies this
      ensures Did(List(ASSESSMENTS, [], rows), reply, None)
    {
      reply := ListInto(ASSESSMENTS, rows);
    }

    /** `assessment_submit`: the handle is used up even if the answers do not translate. */
    method AssessmentSubmit(id: Id, translates: bool, answer: Answer<()>) returns (reply: Reply, sent: Option<Handle>)
      requires Valid()
      modifies this
      ensures Did(Spend(Handle(ASSESSMENTS, id), translates, answer), reply, sent)
    {
      hide Run, SeatNamed, Sent, NoRepeat;
      RunExtends(calls, Spend(Handle(ASSESSMENTS, id), translates, answer));
      calls := calls + [Spend(Handle(ASSESSMENTS, id), translates, answer)];
      dispatched := Sent(calls);
      if id !in live[ASSESSMENTS] {
        return Refused, None;
      }
      live := live[ASSESSMENTS := live[ASSESSMENTS] - {id}];
      if !translates {
        return Refused, None;
      }
      return if answer.Failed? then Failure else Done, Some(Handle(ASSESSMENTS, id));
    }

    /** `self_service_online_devices`: the table is emptied before the read. */
    method OnlineDevices(rows: Answer<seq<Option<Ref>>>) returns (reply: Reply)
      requires Valid()
      modifies this
      ensures Did(List(DEVICES, [], rows), reply, None)
    {
      reply := ListInto(DEVICES, rows);
    }

    /** `self_service_disconnect_device`: every device handle goes, not only the one sent. */
    method DisconnectDevice(id: Id, answer: Answer<()>) returns (reply: Reply, sent: Option<Handle>)
      requires Valid()
      modifies this
      ensures Did(Spend(Handle(DEVICES, id), true, answer), reply, sent)
    {
      hide Run, SeatNamed, Sent, NoRepeat;
      RunExtends(calls, Spend(Handle(DEVICES, id), true, answer));
      calls := calls + [Spend(Handle(DEVICES, id), true, answer)];
      dispatched := Sent(calls);
      if id !in live[DEVICES] {
        return Refused, None;
      }
      live := live[DEVICES := live[DEVICES] - {id}];
      live := live[DEVICES := map[]];
      return if answer.Failed? then Failure else Done, Some(Handle(DEVICES, id));
    }

    /** The first half of `invalidate_auth_bound_references`. */
    method ClearPersonalReferences()
      modifies this`live, this`phaseIds
      ensures phaseIds == map[]
      ensures forall slot: Slot :: live[slot] == if Personal(slot) then map[] else old(live)[slot]
    {
      live := live[PHASES := map[]];
      phaseIds := map[];
      live := live[DEVICES := map[]][NEWS_SOURCES := map[]][NEWS_CHANNELS := map[]];
      live := live[ARTICLES := map[]][SUBSCRIPTIONS := map[]];
      live := live[COURSES := map[]][HOMEWORK := map[]][FILES := map[]];
    }

    /** `invalidate_auth_bound_references`, which starts every login, code, captcha and logout call. */
    method InvalidateAuthBound()
      requires Valid()
      modifies this
      ensures Did(Authenticate, Done, None)
    {
      hide Run, Inverse, Resolves, Sent, NoRepeat;
      RunIsBounded(calls);
      RunExtends(calls, Authenticate);
      calls := calls + [Authenticate];
      dispatched := Sent(calls);
      ClearPersonalReferences();
      live := live[LIBRARIES := map[]];
      ClearLibraryDescendants();
      live := live[INVOICES := map[]][RESERVES := map[]][ASSESSMENTS := map[]][BUILDINGS := map[]];
      assert forall slot: Slot :: live[slot] == ClearAuthBound(old(live))[slot];
    }
  }
}
