/**
 Runs of the questionnaire adapter against an arbitrary server: list reads, form
 reads and one-shot submissions, each call one step.
 */
module AssessmentRuns {
  import opened Wrappers
  import opened AssessmentValues
  import opened AssessmentBody
  import opened AssessmentRoutes
  import Percent = PercentCoding
  import Text

  const MAX_ITEMS: nat := 2048
  const MAX_SUBMIT_BODY_BYTES: nat := 512 * 1024

  /** The list generation is a `u64` that wraps. */
  const GENERATIONS: nat := 0x1_0000_0000_0000_0000

  datatype Row = Row(name: string, route: string)

  predicate AcceptedRow(row: Row) {
    row.name != "" && RouteParts(row.route).Some?
  }

  /** What the list parser accepts: 1 to `MAX_ITEMS` rows, each with a name and an accepted route. */
  type Page = rows: seq<Row> | 1 <= |rows| <= MAX_ITEMS && forall i | 0 <= i < |rows| :: AcceptedRow(rows[i])
    witness (SlashIsRoute(); [Row("course", "/")])

  datatype Ref = Ref(binding: nat, generation: nat, index: nat)

  datatype Evaluation = Evaluation(binding: nat, generation: nat, index: nat, course: string, form: FormValue)

  datatype AdapterError =
    | ForeignForm
    | StaleForm
    | UnknownForm
    | SubmitAlreadyAttempted
    | SubmitTooLarge
    | SubmitUnconfirmed
    | ServerError(reason: string)

  datatype Routes = Routes(
    generation: nat,
    names: seq<string>,
    paths: seq<string>,
    submitted: seq<nat>,
    unconfirmed: bool)

  /** One adapter: its binding never changes. */
  datatype Adapter = Adapter(binding: nat, routes: Routes)

  function Fresh(binding: nat): Adapter {
    Adapter(binding, Routes(0, [], [], [], false))
  }

  /** What became of a dispatched submission: an abandoned call never finishes. */
  datatype Delivery = Confirmed | Failed(error: AdapterError) | Abandoned

  datatype Call =
    | ReadList(page: Result<Page, AdapterError>)
    | ReadForm(reference: Ref, form: Result<FormValue, AdapterError>)
    | Submit(evaluation: Evaluation, delivery: Delivery)

  // ---------------------------------------------------------------- the calls

  function RowNames(rows: seq<Row>): seq<string> {
    seq(|rows|, i requires 0 <= i < |rows| => rows[i].name)
  }

  function RowPaths(rows: seq<Row>): seq<string> {
    seq(|rows|, i requires 0 <= i < |rows| => rows[i].route)
  }

  function NextGeneration(generation: nat): nat {
    (generation + 1) % GENERATIONS
  }

  /** The references an accepted list read hands out. */
  function Minted(a: Adapter, page: Page): seq<Ref> {
    seq(|page|, i requires 0 <= i < |page| => Ref(a.binding, NextGeneration(a.routes.generation), i))
  }

  function AfterList(a: Adapter, page: Page): Adapter {
    a.(routes := Routes(NextGeneration(a.routes.generation), RowNames(page), RowPaths(page), [], false))
  }

  /** `form_path`. */
  function FormPath(a: Adapter, reference: Ref): Option<string> {
    if reference.binding != a.binding || a.routes.generation != reference.generation then None
    else if reference.index < |a.routes.paths| then Some(a.routes.paths[reference.index])
    else None
  }

  function CourseName(a: Adapter, reference: Ref): string {
    if a.routes.generation == reference.generation && reference.index < |a.routes.names|
    then a.routes.names[reference.index]
    else ""
  }

  function FormRoute(a: Adapter, reference: Ref): Result<string, AdapterError> {
    if reference.binding != a.binding then Err(ForeignForm)
    else if a.routes.generation != reference.generation then Err(StaleForm)
    else if reference.index < |a.routes.paths| then Ok(a.routes.paths[reference.index])
    else Err(UnknownForm)
  }

  function ReadFormResult(
        a: Adapter, reference: Ref, form: Result<FormValue, AdapterError>): Result<Evaluation, AdapterError> {
    var _ :- FormRoute(a, reference);
    var value :- form;
    Ok(Evaluation(a.binding, reference.generation, reference.index, CourseName(a, reference), value))
  }

  /** The checks before the mark: nothing has left the client yet. */
  function SubmitRefusal(a: Adapter, e: Evaluation): Option<AdapterError> {
    if e.binding != a.binding then Some(ForeignForm)
    else if a.routes.generation != e.generation then Some(StaleForm)
    else if e.index >= |a.routes.paths| then Some(UnknownForm)
    else if e.index in a.routes.submitted then Some(SubmitAlreadyAttempted)
    else if |BodyOf(FormPairs(e.form))| > MAX_SUBMIT_BODY_BYTES then Some(SubmitTooLarge)
    else None
  }

  function AfterSubmit(a: Adapter, e: Evaluation, delivery: Delivery): Adapter {
    if SubmitRefusal(a, e).Some? then a
    else
      var marked := a.(routes := a.routes.(submitted := a.routes.submitted + [e.index]));
      match delivery
      case Confirmed => marked.(routes := marked.routes.(unconfirmed := false))
      case Failed(_) => marked.(routes := marked.routes.(unconfirmed := true))
      case Abandoned => marked
  }

  function Step(a: Adapter, call: Call): Adapter {
    match call
    case ReadList(Ok(page)) => AfterList(a, page)
    case ReadList(Err(_)) => a
    case ReadForm(_, _) => a
    case Submit(evaluation, delivery) => AfterSubmit(a, evaluation, delivery)
  }

  // ---------------------------------------------------------------- runs

  function Run(binding: nat, calls: seq<Call>): Adapter
    decreases |calls|
  {
    if calls == [] then Fresh(binding) else Step(Run(binding, calls[..|calls| - 1]), calls[|calls| - 1])
  }

  predicate AcceptsList(call: Call) {
    call.ReadList? && call.page.Ok?
  }

  /** How many list reads were accepted: the epoch, of which the generation is a remainder. */
  function Epoch(calls: seq<Call>): nat
    decreases |calls|
  {
    if calls == [] then 0
    else Epoch(calls[..|calls| - 1]) + (if AcceptsList(calls[|calls| - 1]) then 1 else 0)
  }

  /** The rows of the latest accepted list read; none before the first. */
  function LatestRows(calls: seq<Call>): seq<Row>
    decreases |calls|
  {
    if calls == [] then []
    else if AcceptsList(calls[|calls| - 1]) then calls[|calls| - 1].page.value
    else LatestRows(calls[..|calls| - 1])
  }

  /** What leaves the client: the row's submission, and the epoch it left in. */
  datatype Post = Post(epoch: nat, generation: nat, index: nat, body: string)

  /** Whether call `k` of the run dispatches a submission. */
  predicate Dispatches(binding: nat, calls: seq<Call>, k: nat)
    requires k < |calls|
  {
    calls[k].Submit? && SubmitRefusal(Run(binding, calls[..k]), calls[k].evaluation).None?
  }

  function Posts(binding: nat, calls: seq<Call>): seq<Post>
    decreases |calls|
  {
    if calls == [] then []
    else
      var before, last := calls[..|calls| - 1], calls[|calls| - 1];
      if Dispatches(binding, calls, |calls| - 1) then
        Posts(binding, before)
        + [Post(Epoch(before), last.evaluation.generation, last.evaluation.index,
            BodyOf(FormPairs(last.evaluation.form)))]
      else Posts(binding, before)
  }

  // ---------------------------------------------------------------- what a state is

  /** The indices submitted in one epoch. */
  function IndicesIn(posts: seq<Post>, epoch: nat): seq<nat> {
    if posts == [] then []
    else
      var before, last := posts[..|posts| - 1], posts[|posts| - 1];
      IndicesIn(before, epoch) + if last.epoch == epoch then [last.index] else []
  }

  lemma {:induction false} NoIndicesAhead(posts: seq<Post>, epoch: nat)
    requires forall p | p in posts :: p.epoch < epoch
    ensures IndicesIn(posts, epoch) == []
  {
    if posts != [] {
      assert posts[|posts| - 1] in posts;
      NoIndicesAhead(posts[..|posts| - 1], epoch);
    }
  }

  lemma {:induction false} IndicesAreSubmitted(posts: seq<Post>, epoch: nat)
    ensures forall i | 0 <= i < |posts| && posts[i].epoch == epoch :: posts[i].index in IndicesIn(posts, epoch)
  {
    if posts != [] {
      var before := posts[..|posts| - 1];
      IndicesAreSubmitted(before, epoch);
      forall i | 0 <= i < |before| && before[i].epoch == epoch
        ensures before[i].index in IndicesIn(posts, epoch)
      {
      }
    }
  }

  /** Every reachable state is a function of the accepted reads and of the posts. */
  lemma {:induction false} ReachableState(binding: nat, calls: seq<Call>)
    ensures
      var a := Run(binding, calls);
      && a.binding == binding
      && a.routes.generation == Epoch(calls) % GENERATIONS
      && a.routes.names == RowNames(LatestRows(calls))
      && a.routes.paths == RowPaths(LatestRows(calls))
      && a.routes.submitted == IndicesIn(Posts(binding, calls), Epoch(calls))
      && (forall p | p in Posts(binding, calls) :: p.epoch <= Epoch(calls))
    decreases |calls|
  {
    hide BodyOf, FormPairs, AcceptedRow;
    if calls != [] {
      var before, last := calls[..|calls| - 1], calls[|calls| - 1];
      ReachableState(binding, before);
      var posts := Posts(binding, calls);
      if AcceptsList(last) {
        NoIndicesAhead(posts, Epoch(calls));
      } else if Dispatches(binding, calls, |calls| - 1) {
        assert posts[..|posts| - 1] == Posts(binding, before);
      }
    }
  }

  // ---------------------------------------------------------------- what a call does, by the history

  lemma {:induction false} IndicesInExactly(posts: seq<Post>, epoch: nat, index: nat)
    ensures index in IndicesIn(posts, epoch) <==> exists p :: p in posts && p.epoch == epoch && p.index == index
  {
    if posts != [] {
      var before, last := posts[..|posts| - 1], posts[|posts| - 1];
      IndicesInExactly(before, epoch, index);
      assert posts == before + [last];
      if p :| p in posts && p.epoch == epoch && p.index == index {
        assert p in before || p == last;
      }
    }
  }

  /** The row was not posted since the latest accepted list read. */
  ghost predicate NotYetPosted(binding: nat, calls: seq<Call>, index: nat) {
    forall p | p in Posts(binding, calls) :: p.epoch != Epoch(calls) || p.index != index
  }

  /** The answer of `submit_form` before anything leaves, read off the history of the calls. */
  ghost function RefusalByHistory(binding: nat, calls: seq<Call>, e: Evaluation): Option<AdapterError> {
    if e.binding != binding then Some(ForeignForm)
    else if e.generation != Epoch(calls) % GENERATIONS then Some(StaleForm)
    else if e.index >= |LatestRows(calls)| then Some(UnknownForm)
    else if !NotYetPosted(binding, calls, e.index) then Some(SubmitAlreadyAttempted)
    else if |BodyOf(FormPairs(e.form))| > MAX_SUBMIT_BODY_BYTES then Some(SubmitTooLarge)
    else None
  }

  lemma RefusedExactly(binding: nat, calls: seq<Call>, e: Evaluation)
    ensures SubmitRefusal(Run(binding, calls), e) == RefusalByHistory(binding, calls, e)
  {
    hide Run, Posts, Epoch, LatestRows, IndicesIn, BodyOf, FormPairs;
    ReachableState(binding, calls);
    IndicesInExactly(Posts(binding, calls), Epoch(calls), e.index);
  }

  /**
   A submission leaves exactly when the evaluation is of this adapter, of the latest accepted list
   and of one of its rows, that row was not posted since, and the body is within its limit; it is
   posted as it stands, and one that does not leave changes nothing.
   */
  lemma SubmitExactly(binding: nat, calls: seq<Call>, e: Evaluation, delivery: Delivery)
    ensures var all, body := calls + [Submit(e, delivery)], BodyOf(FormPairs(e.form));
            var leaves :=
              && e.binding == binding && e.generation == Epoch(calls) % GENERATIONS && e.index < |LatestRows(calls)|
              && NotYetPosted(binding, calls, e.index) && |body| <= MAX_SUBMIT_BODY_BYTES;
            && Posts(binding, all) == Posts(binding, calls) +
                 (if leaves then [Post(Epoch(calls), e.generation, e.index, body)] else [])
            && (!leaves ==> Run(binding, all) == Run(binding, calls))
  {
    hide BodyOf, FormPairs, SubmitRefusal, NotYetPosted, LatestRows;
    RefusedExactly(binding, calls, e);
    var all := calls + [Submit(e, delivery)];
    assert all[..|calls|] == calls && all[|all| - 1] == Submit(e, delivery);
    assert Posts(binding, calls) + [] == Posts(binding, calls);
  }

  /** An evaluation of another adapter is never posted, and changes nothing. */
  lemma ForeignIsNeverPosted(binding: nat, calls: seq<Call>, e: Evaluation, delivery: Delivery)
    requires e.binding != binding
    ensures Posts(binding, calls + [Submit(e, delivery)]) == Posts(binding, calls)
    ensures Run(binding, calls + [Submit(e, delivery)]) == Run(binding, calls)
  {
    hide Posts, Run;
    SubmitExactly(binding, calls, e, delivery);
    assert Posts(binding, calls) + [] == Posts(binding, calls);
  }

  /**
   A form read answers with an evaluation exactly when the reference is of this adapter, of the
   latest accepted list and of one of its rows and the server's answer is a form; and then the
   evaluation is that form under that reference and the row's own name.
   */
  lemma ReadFormExactly(binding: nat, calls: seq<Call>, reference: Ref, form: Result<FormValue, AdapterError>)
    ensures var rows := LatestRows(calls);
            ReadFormResult(Run(binding, calls), reference, form) ==
              if reference.binding != binding then Err(ForeignForm)
              else if reference.generation != Epoch(calls) % GENERATIONS then Err(StaleForm)
              else if reference.index >= |rows| then Err(UnknownForm)
              else if form.Err? then Err(form.error)
              else Ok(Evaluation(binding, Epoch(calls) % GENERATIONS, reference.index, rows[reference.index].name,
                                 form.value))
  {
    hide Run, Posts, Epoch, LatestRows;
    ReachableState(binding, calls);
  }

  // ---------------------------------------------------------------- at most once

  ghost predicate NoRepeat(posts: seq<Post>) {
    forall i, j | 0 <= i < j < |posts| :: posts[i].epoch != posts[j].epoch || posts[i].index != posts[j].index
  }

  /**
   Over every run, no row is posted twice between two accepted list reads: not by a
   cloned evaluation, not after a failed answer, not after an abandoned call.
   */
  lemma {:induction false} AtMostOncePerEpoch(binding: nat, calls: seq<Call>)
    ensures NoRepeat(Posts(binding, calls))
    decreases |calls|
  {
    hide BodyOf, FormPairs;
    if calls != [] {
      var before, last := calls[..|calls| - 1], calls[|calls| - 1];
      AtMostOncePerEpoch(binding, before);
      if Dispatches(binding, calls, |calls| - 1) {
        ReachableState(binding, before);
        IndicesAreSubmitted(Posts(binding, before), Epoch(before));
      }
    }
  }

  lemma {:induction false} EpochGrows(calls: seq<Call>, k: nat)
    requires k <= |calls|
    ensures Epoch(calls[..k]) <= Epoch(calls)
    decreases |calls|
  {
    if k < |calls| {
      EpochGrows(calls[..|calls| - 1], k);
      assert calls[..|calls| - 1][..k] == calls[..k];
    } else {
      assert calls[..k] == calls;
    }
  }

  lemma {:induction false} PostsCarryTheirGeneration(binding: nat, calls: seq<Call>)
    ensures forall p | p in Posts(binding, calls) :: p.generation == p.epoch % GENERATIONS && p.epoch <= Epoch(calls)
    decreases |calls|
  {
    hide BodyOf, FormPairs;
    if calls != [] {
      PostsCarryTheirGeneration(binding, calls[..|calls| - 1]);
      ReachableState(binding, calls[..|calls| - 1]);
    }
  }

  /**
   In terms of what a caller sees: before the generation wraps, at most one POST
   leaves for each generation and row.
   */
  lemma AtMostOncePerGeneration(binding: nat, calls: seq<Call>)
    requires Epoch(calls) < GENERATIONS
    ensures var posts := Posts(binding, calls);
      forall i, j | 0 <= i < j < |posts| ::
          posts[i].generation != posts[j].generation || posts[i].index != posts[j].index
  {
    hide BodyOf, FormPairs, Posts, Epoch;
    AtMostOncePerEpoch(binding, calls);
    PostsCarryTheirGeneration(binding, calls);
    var posts := Posts(binding, calls);
    forall i, j | 0 <= i < j < |posts|
      ensures posts[i].generation != posts[j].generation || posts[i].index != posts[j].index
    {
      assert posts[i] in posts && posts[j] in posts;
    }
  }

  // ---------------------------------------------------------------- references

  /** The reference of row `index` of the list read that began epoch `epoch`. */
  function RefOf(binding: nat, epoch: nat, index: nat): Ref {
    Ref(binding, epoch % GENERATIONS, index)
  }

  /** An accepted list read hands out exactly the references of the epoch it begins. */
  lemma MintedRefs(binding: nat, calls: seq<Call>, page: Page)
    ensures var refs := Minted(Run(binding, calls), page);
      && |refs| == |page|
      && forall i | 0 <= i < |refs| :: refs[i] == RefOf(binding, Epoch(calls + [ReadList(Ok(page))]), i)
  {
    ReachableState(binding, calls);
    NextRemainder(Epoch(calls));
    hide Run;
    var extended := calls + [ReadList(Ok(page))];
    assert extended[..|calls|] == calls && AcceptsList(extended[|calls|]);
    assert Epoch(extended) == Epoch(calls) + 1;
    var a := Run(binding, calls);
    forall i | 0 <= i < |page|
      ensures Minted(a, page)[i] == RefOf(binding, Epoch(extended), i)
    {
      assert Minted(a, page)[i] == Ref(a.binding, NextGeneration(a.routes.generation), i);
    }
  }

  lemma NextRemainder(n: nat)
    ensures (n % GENERATIONS + 1) % GENERATIONS == (n + 1) % GENERATIONS
  {
    var q, r := n / GENERATIONS, n % GENERATIONS;
    if r + 1 < GENERATIONS {
      Remainder(n + 1, q, r + 1);
      Remainder(r + 1, 0, r + 1);
    } else {
      Remainder(n + 1, q + 1, 0);
      Remainder(r + 1, 1, 0);
    }
  }

  lemma Remainder(n: int, q: int, r: nat)
    requires n == q * GENERATIONS + r && r < GENERATIONS
    ensures n % GENERATIONS == r
  {
  }

  /**
   A reference resolves to a route exactly when the latest accepted list read
   handed it out and the route is its row's.
   */
  lemma ResolvesExactlyLatest(binding: nat, calls: seq<Call>, reference: Ref, route: string)
    ensures FormPath(Run(binding, calls), reference) == Some(route) <==>
      var rows := LatestRows(calls);
      exists i :: 0 <= i < |rows| && reference == RefOf(binding, Epoch(calls), i) && rows[i].route == route
  {
    hide Run, Epoch, LatestRows;
    ReachableState(binding, calls);
    var rows := LatestRows(calls);
    if FormPath(Run(binding, calls), reference) == Some(route) {
      assert reference == RefOf(binding, Epoch(calls), reference.index) && rows[reference.index].route == route;
    }
  }

  /** A form read goes to the same route: for the references of the latest list, and for no other. */
  lemma FormReadsExactlyLatest(binding: nat, calls: seq<Call>, reference: Ref, route: string)
    ensures FormRoute(Run(binding, calls), reference) == Ok(route) <==>
      var rows := LatestRows(calls);
      exists i :: 0 <= i < |rows| && reference == RefOf(binding, Epoch(calls), i) && rows[i].route == route
  {
    hide Run, Epoch, LatestRows;
    ResolvesExactlyLatest(binding, calls, reference, route);
  }

  lemma {:induction false} LatestRowsAreAccepted(calls: seq<Call>)
    ensures forall i | 0 <= i < |LatestRows(calls)| :: AcceptedRow(LatestRows(calls)[i])
    decreases |calls|
  {
    hide AcceptedRow;
    if |calls| > 0 {
      LatestRowsAreAccepted(calls[..|calls| - 1]);
    }
  }

  /** Every route a reference resolves to was accepted, so its segments are those of its decoding. */
  lemma ResolvedRoutesAreSafe(binding: nat, calls: seq<Call>, reference: Ref, route: string)
    requires FormPath(Run(binding, calls), reference) == Some(route)
    ensures RouteParts(route).Some?
    ensures var path := RouteParts(route).value.0;
            && Percent.DecodeToBytes(path).Some?
            && DecodeAll(Text.Split(path, '/')) == Some(SplitBytes(Percent.DecodeToBytes(path).value, SLASH))
            && forall segment | segment in SplitBytes(Percent.DecodeToBytes(path).value, SLASH) :: segment != [DOT, DOT]
  {
    hide Run, Epoch, LatestRows, RouteParts, Percent.DecodeToBytes, DecodeAll, SplitBytes;
    ResolvesExactlyLatest(binding, calls, reference, route);
    LatestRowsAreAccepted(calls);
    AcceptedRouteKeepsSegments(route);
  }

  /**
   A reference handed out in epoch `then` is refused as stale in epoch `now`, and
   so is every evaluation read through it, unless the two are congruent modulo the
   number of generations.
   */
  lemma StaleExactly(binding: nat, calls: seq<Call>, then': nat, index: nat, course: string, form: FormValue)
    requires then' <= Epoch(calls)
    ensures
      var a := Run(binding, calls);
      var congruent := (Epoch(calls) - then') % GENERATIONS == 0;
      && (FormRoute(a, RefOf(binding, then', index)) == Err(StaleForm) <==> !congruent)
      && (SubmitRefusal(a, Evaluation(binding, then' % GENERATIONS, index, course, form)) == Some(StaleForm) <==>
          !congruent)
  {
    hide Run, Epoch, BodyOf, FormPairs;
    ReachableState(binding, calls);
    Congruence(then', Epoch(calls));
  }

  lemma Congruence(a: nat, b: nat)
    requires a <= b
    ensures a % GENERATIONS == b % GENERATIONS <==> (b - a) % GENERATIONS == 0
  {
    var qa, ra, qb, rb := a / GENERATIONS, a % GENERATIONS, b / GENERATIONS, b % GENERATIONS;
    if ra <= rb {
      Remainder(b - a, qb - qa, rb - ra);
    } else {
      Remainder(b - a, qb - qa - 1, rb - ra + GENERATIONS);
    }
  }

  /** Before the generation wraps, an evaluation of an earlier epoch is never posted. */
  lemma SupersededIsNeverPosted(binding: nat, calls: seq<Call>, evaluation: Evaluation, then': nat, delivery: Delivery)
    requires evaluation.generation == then' % GENERATIONS && then' < Epoch(calls) < GENERATIONS
    ensures Posts(binding, calls + [Submit(evaluation, delivery)]) == Posts(binding, calls)
    ensures Run(binding, calls + [Submit(evaluation, delivery)]) == Run(binding, calls)
  {
    hide BodyOf, FormPairs;
    ReachableState(binding, calls);
    assert (calls + [Submit(evaluation, delivery)])[..|calls|] == calls;
  }

  function AcceptedReads(page: Page, n: nat): (calls: seq<Call>)
    ensures |calls| == n && forall i | 0 <= i < n :: calls[i] == ReadList(Ok(page))
  {
    if n == 0 then [] else AcceptedReads(page, n - 1) + [ReadList(Ok(page))]
  }

  lemma {:induction false} EpochOfReads(page: Page, n: nat)
    ensures Epoch(AcceptedReads(page, n)) == n
    ensures n > 0 ==> LatestRows(AcceptedReads(page, n)) == page
  {
    if n > 0 {
      EpochOfReads(page, n - 1);
      assert AcceptedReads(page, n)[..n - 1] == AcceptedReads(page, n - 1);
    }
  }

  /** A submission that is not refused leaves as one more post. */
  lemma SubmitPosts(calls: seq<Call>, e: Evaluation, delivery: Delivery)
    requires SubmitRefusal(Run(e.binding, calls), e).None?
    ensures Posts(e.binding, calls + [Submit(e, delivery)]) ==
            Posts(e.binding, calls) + [Post(Epoch(calls), e.generation, e.index, BodyOf(FormPairs(e.form)))]
  {
    hide BodyOf, FormPairs, Run, SubmitRefusal;
    var all := calls + [Submit(e, delivery)];
    assert all[..|calls|] == calls && all[|all| - 1] == Submit(e, delivery);
  }

  lemma OneAfterWrap()
    ensures (1 + GENERATIONS) % GENERATIONS == 1
  {
  }

  /** A run: an evaluation of the first epoch is posted 2^64 accepted reads later. */
  lemma SupersededIsPostedAfterWrap(page: Page, e: Evaluation, delivery: Delivery)
    requires e.generation == 1 && e.index < |page| && |BodyOf(FormPairs(e.form))| <= MAX_SUBMIT_BODY_BYTES
    ensures var calls := AcceptedReads(page, 1 + GENERATIONS);
            && Epoch(calls) == 1 + GENERATIONS
            && Posts(e.binding, calls + [Submit(e, delivery)]) ==
                 Posts(e.binding, calls) + [Post(1 + GENERATIONS, 1, e.index, BodyOf(FormPairs(e.form)))]
  {
    hide BodyOf, FormPairs, AcceptedRow, AcceptedReads, Run, Epoch, LatestRows, Posts;
    var calls := AcceptedReads(page, 1 + GENERATIONS);
    EpochOfReads(page, 1 + GENERATIONS);
    ReachableState(e.binding, calls);
    ReadsPostNothing(e.binding, page, 1 + GENERATIONS);
    OneAfterWrap();
    SubmitPosts(calls, e, delivery);
  }

  lemma {:induction false} ReadsPostNothing(binding: nat, page: Page, n: nat)
    ensures Posts(binding, AcceptedReads(page, n)) == []
  {
    if n > 0 {
      ReadsPostNothing(binding, page, n - 1);
      assert AcceptedReads(page, n)[..n - 1] == AcceptedReads(page, n - 1);
    }
  }

  /** A rejected list read and a form read, whatever its answer, change nothing. */
  lemma ReadsChangeNothing(binding: nat, calls: seq<Call>, call: Call)
    requires call.ReadForm? || (call.ReadList? && call.page.Err?)
    ensures Run(binding, calls + [call]) == Run(binding, calls)
    ensures Posts(binding, calls + [call]) == Posts(binding, calls)
  {
    hide BodyOf, FormPairs;
    assert (calls + [call])[..|calls|] == calls;
  }

  // ---------------------------------------------------------------- the unconfirmed flag

  /** Call `k` finished a dispatched submission. */
  predicate Finishes(binding: nat, calls: seq<Call>, k: nat)
    requires k < |calls|
  {
    Dispatches(binding, calls, k) && !calls[k].delivery.Abandoned?
  }

  predicate FailsAt(binding: nat, calls: seq<Call>, k: nat)
    requires k < |calls|
  {
    Finishes(binding, calls, k) && calls[k].delivery.Failed?
  }

  /** Call `k` is the most recent one that decides the flag. */
  ghost predicate LastWord(binding: nat, calls: seq<Call>, k: nat)
    requires k < |calls|
  {
    forall j | k < j < |calls| :: !AcceptsList(calls[j]) && !Finishes(binding, calls, j)
  }

  /** Call `k` is the failure that set the flag. */
  ghost predicate SetsFlag(binding: nat, calls: seq<Call>, k: nat) {
    k < |calls| && FailsAt(binding, calls, k) && LastWord(binding, calls, k)
  }

  lemma PrefixCalls(binding: nat, calls: seq<Call>, call: Call, k: nat)
    requires k < |calls|
    ensures (calls + [call])[k] == calls[k]
    ensures Dispatches(binding, calls + [call], k) <==> Dispatches(binding, calls, k)
    ensures Finishes(binding, calls + [call], k) <==> Finishes(binding, calls, k)
    ensures FailsAt(binding, calls + [call], k) <==> FailsAt(binding, calls, k)
  {
    hide SubmitRefusal;
    assert (calls + [call])[..k] == calls[..k];
  }

  /** A call that decides the flag overrides every earlier one. */
  lemma DecidingCall(binding: nat, calls: seq<Call>, call: Call)
    requires AcceptsList(call) || Finishes(binding, calls + [call], |calls|)
    ensures (exists k: nat :: SetsFlag(binding, calls + [call], k)) <==> FailsAt(binding, calls + [call], |calls|)
  {
    hide Finishes, FailsAt;
    var all := calls + [call];
    if FailsAt(binding, all, |calls|) {
      assert SetsFlag(binding, all, |calls|);
    }
    forall k: nat | SetsFlag(binding, all, k)
      ensures k == |calls|
    {
      assert all[|calls|] == call;
    }
  }

  lemma EarlierFlag(binding: nat, calls: seq<Call>, call: Call, k: nat)
    requires !AcceptsList(call) && !Finishes(binding, calls + [call], |calls|) && k < |calls|
    ensures SetsFlag(binding, calls + [call], k) <==> SetsFlag(binding, calls, k)
  {
    hide Finishes, FailsAt, AcceptsList;
    var all := calls + [call];
    PrefixCalls(binding, calls, call, k);
    assert all[|calls|] == call;
    forall j | k < j < |calls|
      ensures all[j] == calls[j] && (Finishes(binding, all, j) <==> Finishes(binding, calls, j))
    {
      PrefixCalls(binding, calls, call, j);
    }
  }

  lemma NoNewFlag(binding: nat, calls: seq<Call>, call: Call)
    requires !Finishes(binding, calls + [call], |calls|)
    ensures forall k: nat | k >= |calls| :: !SetsFlag(binding, calls + [call], k)
  {
    hide Dispatches;
  }

  /** Any other call leaves the earlier verdict in force. */
  lemma IdleCall(binding: nat, calls: seq<Call>, call: Call)
    requires !AcceptsList(call) && !Finishes(binding, calls + [call], |calls|)
    ensures (exists k: nat :: SetsFlag(binding, calls + [call], k)) <==> (exists k: nat :: SetsFlag(binding, calls, k))
  {
    hide SetsFlag, AcceptsList, Finishes;
    NoNewFlag(binding, calls, call);
    if k: nat :| SetsFlag(binding, calls + [call], k) {
      EarlierFlag(binding, calls, call, k);
    }
    if k: nat :| SetsFlag(binding, calls, k) {
      FlagInRange(binding, calls, k);
      EarlierFlag(binding, calls, call, k);
    }
  }

  lemma FlagInRange(binding: nat, calls: seq<Call>, k: nat)
    requires SetsFlag(binding, calls, k)
    ensures k < |calls|
  {
    hide FailsAt;
  }

  /**
   The flag is set exactly when the most recently finished submission since the
   latest accepted list read failed.
   */
  lemma {:induction false} UnconfirmedExactly(binding: nat, calls: seq<Call>)
    ensures Run(binding, calls).routes.unconfirmed <==> exists k: nat :: SetsFlag(binding, calls, k)
    decreases |calls|
  {
    hide SubmitRefusal, SetsFlag;
    if calls != [] {
      var n := |calls| - 1;
      var before, last := calls[..n], calls[n];
      UnconfirmedExactly(binding, before);
      assert calls == before + [last];
      assert (before + [last])[..n] == before;
      if AcceptsList(last) || Finishes(binding, calls, n) {
        DecidingCall(binding, before, last);
      } else {
        IdleCall(binding, before, last);
      }
    } else {
      NothingSet(binding);
    }
  }

  lemma NothingSet(binding: nat)
    ensures forall k: nat :: !SetsFlag(binding, [], k)
  {
  }

  // ---------------------------------------------------------------- submissions without an answer

  /** Call `k` dispatched a submission that the service has not confirmed. */
  predicate Pending(binding: nat, calls: seq<Call>, k: nat) {
    k < |calls| && Dispatches(binding, calls, k) && !calls[k].delivery.Confirmed?
  }

  /** Call `k` puts the flag down: a list read, or another submission that was confirmed. */
  predicate Clears(binding: nat, calls: seq<Call>, k: nat)
    requires k < |calls|
  {
    AcceptsList(calls[k]) || (Finishes(binding, calls, k) && calls[k].delivery.Confirmed?)
  }

  /** Call `k` failed, and nothing put the flag down since. */
  ghost predicate Uncleared(binding: nat, calls: seq<Call>, k: nat) {
    k < |calls| && FailsAt(binding, calls, k) && forall j | k < j < |calls| :: !Clears(binding, calls, j)
  }

  lemma RunSnoc(binding: nat, calls: seq<Call>, call: Call)
    ensures Run(binding, calls + [call]) == Step(Run(binding, calls), call)
    ensures Dispatches(binding, calls + [call], |calls|) <==>
            call.Submit? && SubmitRefusal(Run(binding, calls), call.evaluation).None?
  {
    hide Step, SubmitRefusal;
    assert (calls + [call])[..|calls|] == calls;
  }

  lemma ClearsBefore(binding: nat, calls: seq<Call>, call: Call, k: nat)
    requires k < |calls|
    ensures Clears(binding, calls + [call], k) <==> Clears(binding, calls, k)
  {
    hide Finishes;
    PrefixCalls(binding, calls, call, k);
  }

  lemma UnclearedBefore(binding: nat, calls: seq<Call>, call: Call, k: nat)
    requires k < |calls|
    ensures Uncleared(binding, calls + [call], k) <==>
            Uncleared(binding, calls, k) && !Clears(binding, calls + [call], |calls|)
  {
    hide Clears, FailsAt;
    PrefixCalls(binding, calls, call, k);
    forall j | k < j < |calls|
      ensures Clears(binding, calls + [call], j) <==> Clears(binding, calls, j)
    {
      ClearsBefore(binding, calls, call, j);
    }
  }

  /** The flag after one more call, whatever it was before. */
  lemma FlagSnoc(binding: nat, calls: seq<Call>, call: Call)
    ensures var all, n := calls + [call], |calls|;
            Run(binding, all).routes.unconfirmed <==>
            FailsAt(binding, all, n) || (!Clears(binding, all, n) && Run(binding, calls).routes.unconfirmed)
  {
    hide Run, SubmitRefusal;
    RunSnoc(binding, calls, call);
    assert (calls + [call])[|calls|] == call;
  }

  lemma {:induction false} FlagIsUncleared(binding: nat, calls: seq<Call>)
    ensures Run(binding, calls).routes.unconfirmed <==> exists k: nat :: Uncleared(binding, calls, k)
    decreases |calls|
  {
    if |calls| > 0 {
      hide Run, Uncleared, Clears, FailsAt;
      var n := |calls| - 1;
      var before, last := calls[..n], calls[n];
      assert calls == before + [last];
      FlagIsUncleared(binding, before);
      FlagSnoc(binding, before, last);
      LastUncleared(binding, calls);
      forall k: nat
        ensures k < n ==>
                (Uncleared(binding, calls, k) <==> Uncleared(binding, before, k) && !Clears(binding, calls, n))
        ensures Uncleared(binding, calls, k) ==> k < |calls|
        ensures Uncleared(binding, before, k) ==> k < n
      {
        UnclearedInRange(binding, calls, k);
        UnclearedInRange(binding, before, k);
        if k < n {
          UnclearedBefore(binding, before, last, k);
        }
      }
    }
  }

  lemma UnclearedInRange(binding: nat, calls: seq<Call>, k: nat)
    ensures Uncleared(binding, calls, k) ==> k < |calls|
  {
  }

  lemma LastUncleared(binding: nat, calls: seq<Call>)
    requires |calls| > 0
    ensures Uncleared(binding, calls, |calls| - 1) <==> FailsAt(binding, calls, |calls| - 1)
  {
  }

  /**
   The flag is documented as: a submission was dispatched and the service has not confirmed it.
   It is never set without one. It is right exactly when there is none, or one failed and neither
   a list was read nor another submission confirmed since.
   */
  lemma FlagIsRightExactly(binding: nat, calls: seq<Call>)
    ensures var set', pending := Run(binding, calls).routes.unconfirmed, exists k: nat :: Pending(binding, calls, k);
            && (set' ==> pending)
            && ((set' <==> pending) <==> !pending || exists k: nat :: Uncleared(binding, calls, k))
  {
    hide Run, Dispatches, Clears;
    FlagIsUncleared(binding, calls);
    if k: nat :| Uncleared(binding, calls, k) {
      assert Pending(binding, calls, k);
    }
  }

  /** The evaluation of a row of the first list, in a body that may be sent. */
  predicate OfFirstList(e: Evaluation, page: Page) {
    e.generation == 1 && e.index < |page| && |BodyOf(FormPairs(e.form))| <= MAX_SUBMIT_BODY_BYTES
  }

  lemma AfterFirstList(binding: nat, page: Page)
    ensures Run(binding, [ReadList(Ok(page))]) == AfterList(Fresh(binding), page)
  {
    RunSnoc(binding, [], ReadList(Ok(page)));
    assert [] + [ReadList(Ok(page))] == [ReadList(Ok(page))];
  }

  lemma FirstSubmit(page: Page, e: Evaluation, delivery: Delivery)
    requires OfFirstList(e, page)
    ensures var calls := [ReadList(Ok(page)), Submit(e, delivery)];
            && Dispatches(e.binding, calls, 1)
            && Run(e.binding, calls) ==
                 Adapter(e.binding, Routes(1, RowNames(page), RowPaths(page), [e.index], delivery.Failed?))
  {
    hide Run, BodyOf, FormPairs;
    AfterFirstList(e.binding, page);
    RunSnoc(e.binding, [ReadList(Ok(page))], Submit(e, delivery));
    assert [ReadList(Ok(page))] + [Submit(e, delivery)] == [ReadList(Ok(page)), Submit(e, delivery)];
    assert [] + [e.index] == [e.index];
  }

  /** Call 1 is pending and the flag is down. */
  predicate Missed(binding: nat, calls: seq<Call>) {
    Pending(binding, calls, 1) && !Run(binding, calls).routes.unconfirmed
  }

  /**
   Three runs in which it is not set although the first submission was never confirmed: the call
   was abandoned; it failed and another row was confirmed; it failed and the list was read again.
   */
  lemma UnconfirmedIsMissed(page: Page, e: Evaluation, other: Evaluation, error: AdapterError)
    requires OfFirstList(e, page) && OfFirstList(other, page) && e.binding == other.binding && e.index != other.index
    ensures var list, failed := ReadList(Ok(page)), Submit(e, Failed(error));
            && Missed(e.binding, [list, Submit(e, Abandoned)])
            && Missed(e.binding, [list, failed, Submit(other, Confirmed)])
            && Missed(e.binding, [list, failed, list])
  {
    hide Run, BodyOf, FormPairs, Dispatches, AcceptedRow;
    var list, failed := ReadList(Ok(page)), Submit(e, Failed(error));
    FirstSubmit(page, e, Abandoned);
    FirstSubmit(page, e, Failed(error));
    var two := [list, failed];
    StillPending(e.binding, two, Submit(other, Confirmed));
    StillPending(e.binding, two, list);
    assert two + [Submit(other, Confirmed)] == [list, failed, Submit(other, Confirmed)];
    assert two + [list] == [list, failed, list];
  }

  lemma StillPending(binding: nat, calls: seq<Call>, call: Call)
    requires |calls| > 1 && Pending(binding, calls, 1)
    ensures Pending(binding, calls + [call], 1)
    ensures Run(binding, calls + [call]) == Step(Run(binding, calls), call)
  {
    hide SubmitRefusal, Run;
    PrefixCalls(binding, calls, call, 1);
    RunSnoc(binding, calls, call);
  }
}
