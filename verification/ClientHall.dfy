/** The service-hall identifiers over runs: stable between context changes, dead after one. */
module ClientHall {
  import opened Wrappers
  import opened ClientTables
  import opened ClientRuns
  import opened ClientHierarchy

  /** Whether a call drops the identifiers of tasks, before it shows any of its own. */
  predicate DropsTasks(call: Call) {
    || call.Authenticate?
    || (call.ReadHall? && call.page.Got? && call.page.value.phases &&
        (call.refresh || call.page.value.live || call.page.value.stale))
  }

  /** The `i`-th call read a task page whose `k`-th row has reference `ref` and was shown as `id`. */
  ghost predicate ShowsTask(calls: seq<Call>, i: nat, k: nat, ref: Ref, id: Id)
    requires i < |calls|
  {
    && calls[i].ReadHall? && calls[i].page.Got?
    && k < |calls[i].page.value.tasks| && calls[i].page.value.tasks[k] == Some(ref)
    && At(calls, i).reply.Shown? && k < |At(calls, i).reply.ids| && At(calls, i).reply.ids[k] == Some(id)
  }

  lemma ShownTaskIsHeld(calls: seq<Call>, i: nat, k: nat, ref: Ref, id: Id)
    requires i < |calls| && ShowsTask(calls, i, k, ref, id)
    ensures ref in At(calls, i).tables.phaseIds && At(calls, i).tables.phaseIds[ref] == id
  {
    hide Enter, Resolves;
    var t, call := Run(calls[..i]), calls[i];
    RunIsBounded(calls[..i]);
    PhasesBounded(t);
    var changed := ContextChanged(call.refresh, call.page.value);
    var byId, byRef := if changed then map[] else t.live[PHASES], if changed then map[] else t.phaseIds;
    EnterShows(byId, byRef, call.page.value.tasks, t.next, k);
  }

  /** One call keeps the identifier of every task reference, unless it drops them all. */
  lemma TaskStays(t: Tables, call: Call, ref: Ref)
    requires Bounded(t) && ref in t.phaseIds && !DropsTasks(call)
    ensures ref in Perform(t, call).tables.phaseIds && Perform(t, call).tables.phaseIds[ref] == t.phaseIds[ref]
  {
    hide Enter, Resolves, Inverse;
    PhasesBounded(t);
    if call.ReadHall? {
      if call.page.Got? {
        EnterContinues(t.live[PHASES], t.phaseIds, call.page.value.tasks, t.next);
      }
    } else {
      hide Perform;
      PhasesStay(t, call);
    }
  }

  lemma {:induction false} TaskStaysOverRun(calls: seq<Call>, i: nat, j: nat, ref: Ref)
    requires i <= j <= |calls| && ref in Run(calls[..i]).phaseIds
    requires forall n | i <= n < j :: !DropsTasks(calls[n])
    ensures ref in Run(calls[..j]).phaseIds && Run(calls[..j]).phaseIds[ref] == Run(calls[..i]).phaseIds[ref]
    decreases j
  {
    hide Perform, Bounded, DropsTasks;
    if i < j {
      TaskStaysOverRun(calls, i, j - 1, ref);
      RunIsBounded(calls[..j - 1]);
      TaskStays(Run(calls[..j - 1]), calls[j - 1], ref);
      RunNext(calls, j - 1);
    }
  }

  /**
   Between two context changes a task keeps the identifier it was first shown under, two
   tasks never share one, and each identifier shown still resolves to its own task.
   */
  lemma TaskKeepsItsIdentifier(calls: seq<Call>, i: nat, k: nat, ref: Ref, id: Id, j: nat, m: nat, ref': Ref, id': Id)
    requires i <= j < |calls| && forall n | i < n <= j :: !DropsTasks(calls[n])
    requires ShowsTask(calls, i, k, ref, id) && ShowsTask(calls, j, m, ref', id')
    ensures ref == ref' <==> id == id'
    ensures id in Run(calls[..j + 1]).live[PHASES] && Run(calls[..j + 1]).live[PHASES][id] == ref
  {
    hide Perform, Resolves, DropsTasks;
    ShownTaskIsHeld(calls, i, k, ref, id);
    ShownTaskIsHeld(calls, j, m, ref', id');
    RunNext(calls, i);
    RunNext(calls, j);
    TaskStaysOverRun(calls, i + 1, j + 1, ref);
    RunIsBounded(calls[..j + 1]);
  }

  lemma NothingIsInverse()
    ensures Inverse(map[], map[])
  {
  }

  /** A context change leaves only identifiers it has just minted. */
  lemma ChangeLeavesNewOnes(t: Tables, call: Call)
    requires DropsTasks(call)
    ensures forall id: Id | id in Perform(t, call).tables.live[PHASES] :: id >= t.next
  {
    hide Inverse, Enter;
    if call.ReadHall? {
      NothingIsInverse();
      EnterContinues(map[], map[], call.page.value.tasks, t.next);
    }
  }

  lemma PhaseResolves(t: Tables, id: Id)
    ensures Resolves(t, Handle(PHASES, id)) <==> id in t.live[PHASES]
  {
  }

  /** After a context change no identifier issued before it resolves to a task again. */
  lemma ContextChangeEndsIdentifiers(calls: seq<Call>, i: nat, j: nat, id: Id)
    requires i < j <= |calls| && DropsTasks(calls[i]) && id < Run(calls[..i]).next
    ensures id !in Run(calls[..j]).live[PHASES]
  {
    hide Perform, Resolves, DropsTasks;
    RunNext(calls, i);
    ChangeLeavesNewOnes(Run(calls[..i]), calls[i]);
    PhaseResolves(Run(calls[..i + 1]), id);
    RunEvolves(calls, i, i + 1);
    RunEvolves(calls, i + 1, j);
    PhaseResolves(Run(calls[..j]), id);
  }

  // ---------------------------------------------------------------- which identifiers are live

  predicate Maps(byId: map<Id, Ref>, id: Id, ref: Ref) {
    id in byId && byId[id] == ref
  }

  /** One more task changes nothing but that its reference answers to the identifier shown. */
  lemma PlaceExactly(byId: map<Id, Ref>, byRef: map<Ref, Id>, next: Id, hall: Hall, task: Option<Ref>, id: Id, ref: Ref)
    requires Continues(byId, byRef, next, hall) && forall known: Id | known in hall.byId :: known < hall.next
    ensures var placed := Place(hall, task);
            && (Maps(placed.byId, id, ref) <==>
                  Maps(hall.byId, id, ref) || (task == Some(ref) && placed.ids == hall.ids + [Some(id)]))
            && |placed.ids| == |hall.ids| + 1 && placed.ids[..|hall.ids|] == hall.ids
            && (placed.ids[|hall.ids|].Some? <==> task.Some?)
  {
    var placed := Place(hall, task);
    assert placed.ids == hall.ids + [placed.ids[|hall.ids|]];
  }

  lemma ShowsSnoc(ids: seq<Option<Id>>, rows: seq<Option<Ref>>, last: Option<Id>, row: Option<Ref>, id: Id, ref: Ref)
    requires |ids| == |rows|
    ensures ShowsRow(ids + [last], rows + [row], id, ref) <==>
            ShowsRow(ids, rows, id, ref) || (last == Some(id) && row == Some(ref))
  {
    var allIds, all := ids + [last], rows + [row];
    assert allIds[|ids|] == last && all[|rows|] == row;
    if k: nat :| ShowsAt(ids, rows, id, ref, k) {
      assert ShowsAt(allIds, all, id, ref, k);
    }
    if k: nat :| ShowsAt(allIds, all, id, ref, k) {
      assert k < |ids| ==> ShowsAt(ids, rows, id, ref, k);
    }
    assert last == Some(id) && row == Some(ref) ==> ShowsAt(allIds, all, id, ref, |ids|);
  }

  lemma {:induction false} EnterExactly(
      byId: map<Id, Ref>, byRef: map<Ref, Id>, tasks: seq<Option<Ref>>, next: Id, id: Id, ref: Ref)
    requires Inverse(byId, byRef) && forall known: Id | known in byId :: known < next
    ensures var hall := Enter(byId, byRef, tasks, next);
            && Maps(hall.byId, id, ref) <==> Maps(byId, id, ref) || ShowsRow(hall.ids, tasks, id, ref)
  {
    hide Inverse, Place, Maps, ShowsRow, Enter, Continues;
    var hall := Enter(byId, byRef, tasks, next);
    if |tasks| == 0 {
      EnterNone(byId, byRef, tasks, next);
      NothingShown(hall.ids, tasks, id, ref);
    } else {
      var front, last := tasks[..|tasks| - 1], tasks[|tasks| - 1];
      var before := Enter(byId, byRef, front, next);
      EnterExactly(byId, byRef, front, next, id, ref);
      EnterContinues(byId, byRef, front, next);
      ContinuesBelow(byId, byRef, next, before);
      EnterLast(byId, byRef, tasks, next);
      PlaceExactly(byId, byRef, next, before, last, id, ref);
      assert tasks == front + [last] && hall.ids == before.ids + [hall.ids[|front|]];
      ShowsSnoc(before.ids, front, hall.ids[|front|], last, id, ref);
    }
  }

  lemma EnterNone(byId: map<Id, Ref>, byRef: map<Ref, Id>, tasks: seq<Option<Ref>>, next: Id)
    requires |tasks| == 0
    ensures Enter(byId, byRef, tasks, next) == Hall(byId, byRef, [], next)
  {
  }

  lemma EnterLast(byId: map<Id, Ref>, byRef: map<Ref, Id>, tasks: seq<Option<Ref>>, next: Id)
    requires |tasks| > 0
    ensures Enter(byId, byRef, tasks, next) ==
            Place(Enter(byId, byRef, tasks[..|tasks| - 1], next), tasks[|tasks| - 1])
  {
    hide Place;
  }

  lemma ContinuesBelow(byId: map<Id, Ref>, byRef: map<Ref, Id>, next: Id, hall: Hall)
    requires Continues(byId, byRef, next, hall) && forall known: Id | known in byId :: known < next
    ensures forall known: Id | known in hall.byId :: known < hall.next
  {
    hide Inverse;
  }

  lemma NothingShown(ids: seq<Option<Id>>, rows: seq<Option<Ref>>, id: Id, ref: Ref)
    requires |rows| == 0
    ensures !ShowsRow(ids, rows, id, ref)
  {
  }

  /** The `i`-th call read a task page that showed this reference under this identifier. */
  ghost predicate ShowedTask(calls: seq<Call>, i: nat, id: Id, ref: Ref) {
    && i < |calls| && calls[i].ReadHall? && calls[i].page.Got? && At(calls, i).reply.Shown?
    && ShowsRow(At(calls, i).reply.ids, calls[i].page.value.tasks, id, ref)
  }

  ghost predicate NotDropped(calls: seq<Call>, from: nat) {
    forall n | from <= n < |calls| :: !DropsTasks(calls[n])
  }

  /** What one call does to the identifiers of tasks. */
  lemma TaskSteps(t: Tables, call: Call, id: Id, ref: Ref)
    requires Bounded(t)
    ensures var out := Perform(t, call);
            Maps(out.tables.live[PHASES], id, ref) <==>
              || (call.ReadHall? && call.page.Got? && out.reply.Shown? &&
                  ShowsRow(out.reply.ids, call.page.value.tasks, id, ref))
              || (!DropsTasks(call) && Maps(t.live[PHASES], id, ref))
  {
    hide Enter, Inverse, Resolves, ShowsRow;
    PhasesBounded(t);
    if call.ReadHall? {
      if call.page.Got? {
        NothingIsInverse();
        var kept := !DropsTasks(call);
        var byId, byRef := if kept then t.live[PHASES] else map[], if kept then t.phaseIds else map[];
        EnterExactly(byId, byRef, call.page.value.tasks, t.next, id, ref);
      }
    } else {
      hide Perform;
      PhasesStay(t, call);
    }
  }

  /** A task page showed that task under that identifier, and no context change came after. */
  ghost predicate TaskStands(calls: seq<Call>, id: Id, ref: Ref) {
    exists i: nat :: ShowedTask(calls, i, id, ref) && NotDropped(calls, i + 1)
  }

  lemma ShowedTaskBefore(calls: seq<Call>, i: nat, id: Id, ref: Ref)
    requires |calls| > 0 && i < |calls| - 1
    ensures var before := calls[..|calls| - 1];
            && (ShowedTask(calls, i, id, ref) <==> ShowedTask(before, i, id, ref))
            && (NotDropped(calls, i + 1) <==> NotDropped(before, i + 1) && !DropsTasks(calls[|calls| - 1]))
  {
    hide At, DropsTasks, NotDropped, ShowsRow;
    AtPrefix(calls, i);
    NotDroppedSnoc(calls, i + 1);
  }

  lemma ShowedTaskLast(calls: seq<Call>, id: Id, ref: Ref)
    requires |calls| > 0
    ensures NotDropped(calls, |calls|)
    ensures forall i: nat | i >= |calls| :: !ShowedTask(calls, i, id, ref)
  {
    hide At, DropsTasks, ShowsRow;
  }

  lemma TaskStandsSnoc(calls: seq<Call>, id: Id, ref: Ref)
    requires |calls| > 0
    ensures var last := |calls| - 1;
            TaskStands(calls, id, ref) <==>
            ShowedTask(calls, last, id, ref) || (!DropsTasks(calls[last]) && TaskStands(calls[..last], id, ref))
  {
    hide ShowedTask, NotDropped, DropsTasks;
    var last := |calls| - 1;
    var before := calls[..last];
    ShowedTaskLast(calls, id, ref);
    if last > 0 {
      ShowedTaskLast(before, id, ref);
    } else {
      NoTaskShown(before, id, ref);
    }
    if i: nat :| ShowedTask(before, i, id, ref) && NotDropped(before, i + 1) {
      ShowedTaskBefore(calls, i, id, ref);
    }
    if i: nat :| ShowedTask(calls, i, id, ref) && NotDropped(calls, i + 1) {
      if i < last {
        ShowedTaskBefore(calls, i, id, ref);
      }
    }
  }

  lemma NoTaskShown(calls: seq<Call>, id: Id, ref: Ref)
    requires |calls| == 0
    ensures forall i: nat :: !ShowedTask(calls, i, id, ref)
    ensures !Maps(Run(calls).live[PHASES], id, ref)
  {
  }

  /**
   In every reachable state an identifier resolves to a task exactly when a task page showed that
   task under it and no context change came after.
   */
  lemma {:induction false} TaskLiveExactly(calls: seq<Call>, id: Id, ref: Ref)
    ensures Maps(Run(calls).live[PHASES], id, ref) <==> TaskStands(calls, id, ref)
  {
    hide Perform, DropsTasks, ShowsRow, Maps, TaskStands;
    if |calls| == 0 {
      NoTaskShown(calls, id, ref);
      NothingStandsYet(calls, id, ref);
    } else {
      var last := |calls| - 1;
      TaskLiveExactly(calls[..last], id, ref);
      RunIsBounded(calls[..last]);
      TaskSteps(Run(calls[..last]), calls[last], id, ref);
      TaskStandsSnoc(calls, id, ref);
      assert Run(calls) == At(calls, last).tables;
    }
  }

  lemma NothingStandsYet(calls: seq<Call>, id: Id, ref: Ref)
    requires |calls| == 0
    ensures !TaskStands(calls, id, ref)
  {
  }

  lemma NotDroppedSnoc(calls: seq<Call>, from: nat)
    requires from < |calls|
    ensures NotDropped(calls, from) <==> NotDropped(calls[..|calls| - 1], from) && !DropsTasks(calls[|calls| - 1])
  {
    hide DropsTasks;
  }
}
