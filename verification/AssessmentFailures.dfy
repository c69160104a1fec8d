/**
 What answers leave of a form they do not fit: exactly when the form is unchanged, and
 an input for which it is not.
 */
module AssessmentFailures {
  import opened Wrappers
  import opened AssessmentValues

  // ---------------------------------------------------------------- answers already held

  /** Writing the comment, if it can be written at all, changes nothing. */
  predicate CommentHeld(field: Option<Field>, comment: Option<string>) {
    comment.Some? && field.Some? && ValidComponent(comment.value) ==> field.value.value == comment.value
  }

  /** A score in range is written before the comment is looked at. */
  predicate QuestionHeld(q: Question, a: Answer) {
    InRange(a.score) ==> a.score == q.score && CommentHeld(q.suggestion, a.suggestion)
  }

  /** Every answer up to and including the first that does not fit is already held. */
  predicate PersonHeld(p: PersonValue, answers: seq<Answer>) {
    |p.questions| == |answers| ==>
      forall i | 0 <= i < |answers| && (forall j | 0 <= j < i :: QuestionFits(p.questions[j], answers[j])) ::
        QuestionHeld(p.questions[i], answers[i])
  }

  predicate PeopleHeld(people: seq<PersonValue>, answers: seq<seq<Answer>>) {
    |people| == |answers| ==>
      forall i | 0 <= i < |answers| && (forall j | 0 <= j < i :: PersonFits(people[j], answers[j])) ::
        PersonHeld(people[i], answers[i])
  }

  /** Read before the call: nothing the application gets to write differs from what the form holds. */
  predicate Held(form: FormValue, a: Answers) {
    InRange(a.score) ==>
      && a.score == form.score && CommentHeld(form.suggestion, a.suggestion)
      && (CommentFits(form.suggestion, a.suggestion) ==>
            && PeopleHeld(form.teachers, a.teachers)
            && (PeopleFit(form.teachers, a.teachers) ==> PeopleHeld(form.assistants, a.assistants)))
  }

  // ---------------------------------------------------------------- the exact condition

  /** A pairwise pass leaves its items alone exactly when it does so up to and including the first error. */
  ghost predicate KeepsUpToError<T(!new), A(!new)>(xs: seq<T>, answers: seq<A>, f: (T, A) -> (T, Outcome))
    requires |xs| == |answers|
  {
    forall i | 0 <= i < |xs| && (forall j | 0 <= j < i :: f(xs[j], answers[j]).1.Ok?) :: f(xs[i], answers[i]).0 == xs[i]
  }

  lemma KeepsCons<T(!new), A(!new)>(xs: seq<T>, answers: seq<A>, f: (T, A) -> (T, Outcome))
    requires |xs| == |answers| > 0
    ensures KeepsUpToError(xs, answers, f) <==>
      f(xs[0], answers[0]).0 == xs[0]
      && (f(xs[0], answers[0]).1.Ok? ==> KeepsUpToError(xs[1..], answers[1..], f))
  {
    var ys, bs := xs[1..], answers[1..];
    assert forall i | 0 < i < |xs| :: xs[i] == ys[i - 1] && answers[i] == bs[i - 1];
    if KeepsUpToError(xs, answers, f) && f(xs[0], answers[0]).1.Ok? {
      forall i | 0 <= i < |ys| && (forall j | 0 <= j < i :: f(ys[j], bs[j]).1.Ok?)
        ensures f(ys[i], bs[i]).0 == ys[i]
      {
        assert xs[i + 1] == ys[i] && answers[i + 1] == bs[i];
        assert forall j | 0 < j < i + 1 :: f(xs[j], answers[j]) == f(ys[j - 1], bs[j - 1]);
      }
    }
    if f(xs[0], answers[0]).0 == xs[0] && (f(xs[0], answers[0]).1.Ok? ==> KeepsUpToError(ys, bs, f)) {
      forall i | 0 <= i < |xs| && (forall j | 0 <= j < i :: f(xs[j], answers[j]).1.Ok?)
        ensures f(xs[i], answers[i]).0 == xs[i]
      {
        if i > 0 {
          assert f(xs[0], answers[0]).1.Ok?;
          assert forall j | 0 <= j < i - 1 :: ys[j] == xs[j + 1] && bs[j] == answers[j + 1];
          assert f(ys[i - 1], bs[i - 1]).0 == ys[i - 1];
        }
      }
    }
  }

  lemma {:induction false} EachKeeps<T(!new), A(!new)>(xs: seq<T>, answers: seq<A>, f: (T, A) -> (T, Outcome))
    requires |xs| == |answers|
    ensures Each(xs, answers, f).0 == xs <==> KeepsUpToError(xs, answers, f)
  {
    hide KeepsUpToError;
    if xs == [] {
      NothingToKeep(xs, answers, f);
    } else {
      KeepsCons(xs, answers, f);
      EachKeeps(xs[1..], answers[1..], f);
      var (x, outcome) := f(xs[0], answers[0]);
      var rest := if outcome.Err? then xs[1..] else Each(xs[1..], answers[1..], f).0;
      assert Each(xs, answers, f).0 == [x] + rest;
      assert ([x] + rest)[1..] == rest && xs == [xs[0]] + xs[1..];
    }
  }

  lemma NothingToKeep<T(!new), A(!new)>(xs: seq<T>, answers: seq<A>, f: (T, A) -> (T, Outcome))
    requires |xs| == |answers| == 0
    ensures KeepsUpToError(xs, answers, f)
  {
  }

  lemma QuestionKeepsExactly(q: Question, a: Answer)
    ensures AnswerQuestion(q, a).0 == q <==> QuestionHeld(q, a)
    ensures AnswerQuestion(q, a).1.Ok? <==> QuestionFits(q, a)
  {
  }

  lemma PersonKeepsExactly(p: PersonValue, answers: seq<Answer>)
    ensures AnswerPerson(p, answers).0 == p <==> PersonHeld(p, answers)
    ensures AnswerPerson(p, answers).1.Ok? <==> PersonFits(p, answers)
  {
    hide QuestionHeld, QuestionFits, AnswerQuestion, Each;
    PersonSucceeds(p, answers);
    if |p.questions| == |answers| {
      EachKeeps(p.questions, answers, AnswerQuestion);
      forall i | 0 <= i < |answers|
        ensures AnswerQuestion(p.questions[i], answers[i]).0 == p.questions[i] <==>
                QuestionHeld(p.questions[i], answers[i])
        ensures AnswerQuestion(p.questions[i], answers[i]).1.Ok? <==> QuestionFits(p.questions[i], answers[i])
      {
        QuestionKeepsExactly(p.questions[i], answers[i]);
      }
    }
  }

  lemma PeopleKeepExactly(people: seq<PersonValue>, answers: seq<seq<Answer>>)
    ensures AnswerPeople(people, answers).0 == people <==> PeopleHeld(people, answers)
    ensures AnswerPeople(people, answers).1.Ok? <==> PeopleFit(people, answers)
  {
    hide PersonHeld, PersonFits, AnswerPerson, Each;
    PeopleSucceed(people, answers);
    if |people| == |answers| {
      EachKeeps(people, answers, AnswerPerson);
      forall i | 0 <= i < |answers|
        ensures AnswerPerson(people[i], answers[i]).0 == people[i] <==> PersonHeld(people[i], answers[i])
        ensures AnswerPerson(people[i], answers[i]).1.Ok? <==> PersonFits(people[i], answers[i])
      {
        PersonKeepsExactly(people[i], answers[i]);
      }
    }
  }

  /**
   Whether answers are accepted or refused: the form is left as it was exactly when
   nothing written before the first refusal differs from what it holds.
   */
  lemma FormKeptExactly(form: FormValue, a: Answers)
    ensures Apply(form, a).0 == form <==> Held(form, a)
  {
    hide PeopleHeld, PeopleFit, AnswerPeople;
    PeopleKeepExactly(form.teachers, a.teachers);
    PeopleKeepExactly(form.assistants, a.assistants);
  }

  /** So a refused application half applies exactly when something it wrote was new. */
  lemma HalfAppliedExactly(form: FormValue, a: Answers)
    ensures Apply(form, a).1.Err? && Apply(form, a).0 != form <==> !Fits(form, a) && !Held(form, a)
  {
    hide Apply, Fits, Held;
    ApplySucceedsExactly(form, a);
    FormKeptExactly(form, a);
  }

  /** A form as a page may give it: a transaction, a score, one person with one question, no comment. */
  const FORM: FormValue := FormValue(
    [Field("wjid", "1")], None, "score", 3,
    [PersonValue("teacher", Teacher, [Question("question", 1, "q", [], None)])], [])

  /** An input: the score is written, then the comment has no field. */
  lemma HalfAppliedWitness()
    ensures var r := Apply(FORM, Answers(5, Some("good"), [[Answer(5, None)]], []));
            r == (FORM.(score := 5), Err(NoSuggestionField)) && r.0 != FORM
  {
  }
}
