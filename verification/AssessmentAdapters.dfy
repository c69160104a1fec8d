/** The questionnaire adapter as an object, proved against the runs of `AssessmentRuns`. */
module AssessmentAdapters {
  import opened Wrappers
  import opened AssessmentValues
  import opened AssessmentBody
  import opened AssessmentRuns

  lemma MintedIs(a: Adapter, page: Page, items: seq<Ref>)
    requires |items| == |page|
    requires forall k | 0 <= k < |items| :: items[k] == Ref(a.binding, NextGeneration(a.routes.generation), k)
    ensures items == Minted(a, page)
  {
    var minted := Minted(a, page);
    forall k | 0 <= k < |items|
      ensures items[k] == minted[k]
    {
      assert minted[k] == Ref(a.binding, NextGeneration(a.routes.generation), k);
    }
  }

  class AssessmentAdapter {
    const binding: nat
    var generation: nat
    var names: seq<string>
    var paths: seq<string>
    var submitted: seq<nat>
    var unconfirmed: bool
    /** Every call so far, and every submission that left. */
    ghost var calls: seq<Call>
    ghost var posted: seq<Post>

    ghost function State(): Adapter
      reads this
    {
      Adapter(binding, Routes(generation, names, paths, submitted, unconfirmed))
    }

    /** The object is in the state its calls lead to, and posted what they dispatch. */
    ghost predicate Valid()
      reads this
    {
      State() == Run(binding, calls) && posted == Posts(binding, calls)
    }

    constructor (binding: nat)
      ensures Valid() && calls == [] && this.binding == binding
    {
      this.binding := binding;
      generation := 0;
      names := [];
      paths := [];
      submitted := [];
      unconfirmed := false;
      calls := [];
      posted := [];
    }

    /** `read_list_with_proof`; the page is the parsed answer of the server. */
    method ReadListPage(page: Result<Page, AdapterError>) returns (r: Result<seq<Ref>, AdapterError>)
      requires Valid()
      modifies this
      ensures Valid() && calls == old(calls) + [ReadList(page)]
      ensures r == if page.Err? then Err(page.error) else Ok(Minted(old(State()), page.value))
      ensures page.Err? ==> State() == old(State())
    {
      hide SubmitRefusal;
      ghost var call := ReadList(page);
      assert (calls + [call])[..|calls|] == calls;
      calls := calls + [call];
      if page.Err? {
        return Err(page.error);
      }
      var rows := page.value;
      var next := (generation + 1) % GENERATIONS;
      var items: seq<Ref> := [];
      for i := 0 to |rows|
        invariant |items| == i
        invariant forall k | 0 <= k < i :: items[k] == Ref(binding, next, k)
      {
        items := items + [Ref(binding, next, i)];
      }
      generation, names, paths, submitted, unconfirmed := next, RowNames(rows), RowPaths(rows), [], false;
      MintedIs(old(State()), rows, items);
      return Ok(items);
    }

    /** `form_path`: a route for the references of the latest list, and for no other. */
    method ResolveFormPath(reference: Ref) returns (path: Option<string>)
      requires Valid()
      ensures path == FormPath(State(), reference)
      ensures var rows := LatestRows(calls);
        path == if reference.index < |rows| && reference == RefOf(binding, Epoch(calls), reference.index)
                then Some(rows[reference.index].route)
                else None
    {
      hide Run, Posts;
      ReachableState(binding, calls);
      if reference.binding != binding {
        return None;
      }
      if generation != reference.generation {
        return None;
      }
      path := if reference.index < |paths| then Some(paths[reference.index]) else None;
      assert path == FormPath(State(), reference);
    }

    /** `read_form`; the form is the parsed answer of the server. */
    method ReadFormPage(
          reference: Ref, form: Result<FormValue, AdapterError>) returns (r: Result<Evaluation, AdapterError>)
      requires Valid()
      modifies this`calls
      ensures Valid() && calls == old(calls) + [ReadForm(reference, form)] && State() == old(State())
      ensures r == ReadFormResult(old(State()), reference, form)
      ensures var rows := LatestRows(old(calls));
              r == if reference.binding != binding then Err(ForeignForm)
                   else if reference.generation != Epoch(old(calls)) % GENERATIONS then Err(StaleForm)
                   else if reference.index >= |rows| then Err(UnknownForm)
                   else if form.Err? then Err(form.error)
                   else Ok(Evaluation(binding, reference.generation, reference.index, rows[reference.index].name,
                                      form.value))
    {
      hide SubmitRefusal;
      ReadFormExactly(binding, calls, reference, form);
      ghost var call := ReadForm(reference, form);
      assert (calls + [call])[..|calls|] == calls;
      calls := calls + [call];
      if reference.binding != binding {
        return Err(ForeignForm);
      }
      if generation != reference.generation {
        return Err(StaleForm);
      }
      if reference.index >= |paths| {
        return Err(UnknownForm);
      }
      if form.Err? {
        return Err(form.error);
      }
      var course := if reference.index < |names| then names[reference.index] else "";
      return Ok(Evaluation(binding, reference.generation, reference.index, course, form.value));
    }

    /**
     `submit_form`; `None` is a call that was abandoned after the row was marked.
     The row is marked before the body leaves.
     */
    method SubmitForm(evaluation: Evaluation, delivery: Delivery) returns (r: Option<Result<(), AdapterError>>)
      requires Valid()
      modifies this
      ensures Valid() && calls == old(calls) + [Submit(evaluation, delivery)]
      ensures NoRepeat(posted)
      ensures var refusal := RefusalByHistory(binding, old(calls), evaluation);
              && posted == old(posted) + (if refusal.Some? then [] else
                   [Post(Epoch(old(calls)), evaluation.generation, evaluation.index,
                         BodyOf(FormPairs(evaluation.form)))])
              && (refusal.Some? ==> State() == old(State()))
      ensures r == match RefusalByHistory(binding, old(calls), evaluation)
                   case Some(error) => Some(Err(error))
                   case None => match delivery
                                case Confirmed => Some(Ok(()))
                                case Failed(error) => Some(Err(error))
                                case Abandoned => None
    {
      hide BodyOf, FormPairs;
      ghost var before, call := calls, Submit(evaluation, delivery);
      assert (calls + [call])[..|calls|] == calls;
      AtMostOncePerEpoch(binding, calls + [call]);
      RefusedExactly(binding, calls, evaluation);
      hide NoRepeat, RefusalByHistory;
      calls := calls + [call];
      if evaluation.binding != binding {
        return Some(Err(ForeignForm));
      }
      if generation != evaluation.generation {
        return Some(Err(StaleForm));
      }
      if evaluation.index >= |paths| {
        return Some(Err(UnknownForm));
      }
      if evaluation.index in submitted {
        return Some(Err(SubmitAlreadyAttempted));
      }
      var body := BodyOf(FormPairs(evaluation.form));
      if |body| > MAX_SUBMIT_BODY_BYTES {
        return Some(Err(SubmitTooLarge));
      }
      submitted := submitted + [evaluation.index];
      posted := posted + [Post(Epoch(before), evaluation.generation, evaluation.index, body)];
      match delivery {
        case Confirmed =>
          unconfirmed := false;
          return Some(Ok(()));
        case Failed(error) =>
          unconfirmed := true;
          return Some(Err(error));
        case Abandoned =>
          return None;
      }
    }
  }
}
