/**
 The questionnaire objects whose setters update them in place.  Every method is
 proved against the value functions of `AssessmentValues` and `AssessmentBody`.
 */
module AssessmentForms {
  import opened Wrappers
  import opened Text
  import opened PercentCoding
  import opened AssessmentValues
  import opened AssessmentBody
  import opened AssessmentPairs
  import opened AssessmentFailures

  function ScoreAll(questions: seq<Question>, score: nat): seq<Question> {
    seq(|questions|, i requires 0 <= i < |questions| => questions[i].(score := score))
  }

  function CommentOne(q: Question, value: string): Question {
    if q.suggestion.Some? then q.(suggestion := Some(Field(q.suggestion.value.name, value))) else q
  }

  function CommentAll(questions: seq<Question>, value: string): seq<Question> {
    seq(|questions|, i requires 0 <= i < |questions| => CommentOne(questions[i], value))
  }

  predicate HasComment(questions: seq<Question>) {
    exists i :: 0 <= i < |questions| && questions[i].suggestion.Some?
  }

  /** The bulk setters touch nothing the service owns. */
  lemma BulkSettersKeepOwned(questions: seq<Question>, score: nat, value: string)
    ensures BlankQuestions(ScoreAll(questions, score)) == BlankQuestions(questions)
    ensures BlankQuestions(CommentAll(questions, value)) == BlankQuestions(questions)
  {
  }

  // ------------------------------------------------ a loop that stops at the first error

  /** The rounds from `i` on, after `done`. */
  function EachFrom<T, A>(
        done: seq<T>, xs: seq<T>, answers: seq<A>, f: (T, A) -> (T, Outcome), i: nat): (seq<T>, Outcome)
    requires i <= |xs| == |answers|
  {
    var r := Each(xs[i..], answers[i..], f);
    (done + r.0, r.1)
  }

  lemma EachStart<T, A>(xs: seq<T>, answers: seq<A>, f: (T, A) -> (T, Outcome))
    requires |xs| == |answers|
    ensures EachFrom([], xs, answers, f, 0) == Each(xs, answers, f)
    ensures xs[..0] == []
  {
    assert xs[0..] == xs && answers[0..] == answers;
    assert [] + Each(xs, answers, f).0 == Each(xs, answers, f).0;
  }

  lemma EachStep<T, A>(done: seq<T>, xs: seq<T>, answers: seq<A>, f: (T, A) -> (T, Outcome), i: nat)
    requires i < |xs| == |answers|
    ensures var step := f(xs[i], answers[i]);
      EachFrom(done, xs, answers, f, i) ==
        if step.1.Err? then (done + [step.0] + xs[i + 1..], step.1)
        else EachFrom(done + [step.0], xs, answers, f, i + 1)
  {
    assert xs[i..][1..] == xs[i + 1..] && answers[i..][1..] == answers[i + 1..];
    var step := f(xs[i], answers[i]);
    var rest := Each(xs[i + 1..], answers[i + 1..], f).0;
    assert done + ([step.0] + rest) == done + [step.0] + rest;
    assert done + ([step.0] + xs[i + 1..]) == done + [step.0] + xs[i + 1..];
  }

  lemma EachEnd<T, A>(done: seq<T>, xs: seq<T>, answers: seq<A>, f: (T, A) -> (T, Outcome))
    requires |xs| == |answers|
    ensures EachFrom(done, xs, answers, f, |xs|) == (done, Ok(()))
  {
    assert xs[|xs|..] == [];
    assert done + [] == done;
  }

  lemma AnswerInTwoSteps(q: Question, a: Answer)
    ensures AnswerQuestion(q, a) ==
      if !InRange(a.score) then (q, Err(ScoreOutOfRange))
      else if a.suggestion.None? then (q.(score := a.score), Ok(()))
      else WithSuggestion(q.(score := a.score), a.suggestion.value)
    ensures a.suggestion.Some? && WithSuggestion(q.(score := a.score), a.suggestion.value).1.Err? ==>
      WithSuggestion(q.(score := a.score), a.suggestion.value).0 == q.(score := a.score)
  {
  }

  lemma QuestionsRound(pairs: seq<Pair>, questions: seq<Question>)
    requires |questions| > 0
    ensures pairs + QuestionsPairs(questions) == pairs + QuestionPairs(questions[0]) + QuestionsPairs(questions[1..])
  {
    hide QuestionPairs;
  }

  lemma QuestionsEnd(pairs: seq<Pair>, questions: seq<Question>)
    requires |questions| == 0
    ensures pairs + QuestionsPairs(questions) == pairs
  {
    hide QuestionPairs;
  }

  lemma PeopleRound(pairs: seq<Pair>, people: seq<PersonValue>)
    requires |people| > 0
    ensures pairs + PeoplePairs(people) == pairs + QuestionsPairs(people[0].questions) + PeoplePairs(people[1..])
  {
    hide QuestionsPairs;
  }

  lemma PeopleEnd(pairs: seq<Pair>, people: seq<PersonValue>)
    requires |people| == 0
    ensures pairs + PeoplePairs(people) == pairs
  {
    hide QuestionsPairs;
  }

  /** An element replaced where `now` still agrees with `before`. */
  lemma OneReplaced<T>(now: seq<T>, before: seq<T>, index: nat, after: T)
    requires index < |now| == |before| && now[index..] == before[index..]
    ensures now[index] == before[index]
    ensures var replaced := now[index := after];
      && replaced == now[..index] + [after] + before[index + 1..]
      && replaced[..index + 1] == now[..index] + [after] && replaced[index + 1..] == before[index + 1..]
  {
    assert now[index] == now[index..][0] == before[index..][0];
    assert now[index + 1..] == now[index..][1..] == before[index + 1..];
  }

  class AssessmentPerson {
    const name: string
    const role: Role
    var questions: seq<Question>

    constructor (name: string, role: Role, questions: seq<Question>)
      ensures Value() == PersonValue(name, role, questions)
    {
      this.name := name;
      this.role := role;
      this.questions := questions;
    }

    ghost function Value(): PersonValue
      reads this
    {
      PersonValue(name, role, questions)
    }

    method SetQuestionScore(index: nat, score: nat) returns (r: Outcome)
      modifies this`questions
      ensures r == if !InRange(score) then Err(ScoreOutOfRange)
                   else if index >= |old(questions)| then Err(UnknownQuestion)
                   else Ok(())
      ensures questions == if r.Ok? then old(questions)[index := old(questions)[index].(score := score)]
              else old(questions)
    {
      if !InRange(score) {
        return Err(ScoreOutOfRange);
      }
      if index >= |questions| {
        return Err(UnknownQuestion);
      }
      questions := questions[index := questions[index].(score := score)];
      return Ok(());
    }

    method SetQuestionSuggestion(index: nat, value: string) returns (r: Outcome)
      modifies this`questions
      ensures r == if index >= |old(questions)| then Err(UnknownQuestion)
                   else WithSuggestion(old(questions)[index], value).1
      ensures questions == if r.Ok?
              then old(questions)[index := WithSuggestion(old(questions)[index], value).0] else old(questions)
    {
      if index >= |questions| {
        return Err(UnknownQuestion);
      }
      var question := questions[index];
      if question.suggestion.None? {
        return Err(NoSuggestionField);
      }
      if !ValidComponent(value) {
        return Err(InvalidValue);
      }
      questions := questions[index := question.(suggestion := Some(Field(question.suggestion.value.name, value)))];
      return Ok(());
    }

    method SetSuggestion(value: string) returns (r: Outcome)
      modifies this`questions
      ensures r == if !ValidComponent(value) then Err(InvalidValue)
                   else if HasComment(old(questions)) then Ok(())
                   else Err(NoSuggestionField)
      ensures questions == if ValidComponent(value) then CommentAll(old(questions), value) else old(questions)
    {
      if !ValidComponent(value) {
        return Err(InvalidValue);
      }
      var written := false;
      for i := 0 to |questions|
        invariant |questions| == |old(questions)|
        invariant forall k | 0 <= k < i :: questions[k] == CommentOne(old(questions)[k], value)
        invariant forall k | i <= k < |questions| :: questions[k] == old(questions)[k]
        invariant written <==> exists k :: 0 <= k < i && old(questions)[k].suggestion.Some?
      {
        var question := questions[i];
        if question.suggestion.Some? {
          questions := questions[i := question.(suggestion := Some(Field(question.suggestion.value.name, value)))];
          written := true;
        }
      }
      return if written then Ok(()) else Err(NoSuggestionField);
    }

    method SetAllScores(score: nat) returns (r: Outcome)
      modifies this`questions
      ensures r == if InRange(score) then Ok(()) else Err(ScoreOutOfRange)
      ensures questions == if InRange(score) then ScoreAll(old(questions), score) else old(questions)
    {
      if !InRange(score) {
        return Err(ScoreOutOfRange);
      }
      for i := 0 to |questions|
        invariant |questions| == |old(questions)|
        invariant forall k | 0 <= k < i :: questions[k] == old(questions)[k].(score := score)
        invariant forall k | i <= k < |questions| :: questions[k] == old(questions)[k]
      {
        questions := questions[i := questions[i].(score := score)];
      }
      return Ok(());
    }

    /** One round of `apply_person_answers`. */
    method AnswerOne(index: nat, answer: Answer) returns (r: Outcome)
      requires index < |questions|
      modifies this`questions
      ensures r == AnswerQuestion(old(questions)[index], answer).1
      ensures questions == old(questions)[index := AnswerQuestion(old(questions)[index], answer).0]
    {
      hide InRange, ValidComponent;
      ghost var q := questions[index];
      AnswerInTwoSteps(q, answer);
      hide AnswerQuestion, WithSuggestion;
      r := SetQuestionScore(index, answer.score);
      if r.Err? || answer.suggestion.None? {
        return;
      }
      r := SetQuestionSuggestion(index, answer.suggestion.value);
    }

    /** The inner loop of `apply_person_answers`, with its count check. */
    method Answer(answers: seq<Answer>) returns (r: Outcome)
      modifies this`questions
      ensures (Value(), r) == AnswerPerson(old(Value()), answers)
    {
      if |questions| != |answers| {
        return Err(UnknownQuestion);
      }
      hide Each, AnswerQuestion;
      ghost var before := questions;
      EachStart(before, answers, AnswerQuestion);
      for index := 0 to |answers|
        invariant |questions| == |before| == |answers|
        invariant questions[index..] == before[index..]
        invariant Each(before, answers, AnswerQuestion) ==
                EachFrom(questions[..index], before, answers, AnswerQuestion, index)
      {
        ghost var done, after := questions[..index], AnswerQuestion(before[index], answers[index]).0;
        EachStep(done, before, answers, AnswerQuestion, index);
        OneReplaced(questions, before, index, after);
        var outcome := AnswerOne(index, answers[index]);
        if outcome.Err? {
          return outcome;
        }
      }
      EachEnd(questions, before, answers, AnswerQuestion);
      assert questions[..|answers|] == questions;
      return Ok(());
    }

    method SubmissionPairs() returns (pairs: seq<Pair>)
      ensures pairs == QuestionsPairs(questions) && |pairs| == QuestionsWidth(questions)
      ensures forall j | 0 <= j < |questions| :: QuestionAt(pairs, QuestionsWidth(questions[..j]), questions[j])
    {
      hide QuestionPairs, QuestionsPairs, QuestionAt, QuestionsWidth;
      QuestionsStand(questions);
      pairs := [];
      assert questions[0..] == questions;
      for i := 0 to |questions|
        invariant QuestionsPairs(questions) == pairs + QuestionsPairs(questions[i..])
      {
        QuestionsRound(pairs, questions[i..]);
        assert questions[i..][1..] == questions[i + 1..];
        pairs := pairs + QuestionPairs(questions[i]);
      }
      QuestionsEnd(pairs, questions[|questions|..]);
    }
  }

  // ---------------------------------------------------------------- groups of people

  ghost predicate Distinct(people: seq<AssessmentPerson>) {
    forall i, j | 0 <= i < j < |people| :: people[i] != people[j]
  }

  ghost function Values(people: seq<AssessmentPerson>): (values: seq<PersonValue>)
    reads set p | p in people
    ensures |values| == |people|
    ensures forall i | 0 <= i < |people| :: values[i] == people[i].Value()
  {
    if people == [] then [] else [people[0].Value()] + Values(people[1..])
  }

  /** The outer loop of `apply_person_answers`. */
  method ApplyPersonAnswers(people: seq<AssessmentPerson>, answers: seq<seq<Answer>>) returns (r: Outcome)
    requires Distinct(people)
    modifies set p | p in people
    ensures (Values(people), r) == AnswerPeople(old(Values(people)), answers)
  {
    hide Each, EachFrom, AnswerPerson, Values;
    if |people| != |answers| {
      return Err(UnknownQuestion);
    }
    ghost var before := Values(people);
    ghost var done: seq<PersonValue> := [];
    EachStart(before, answers, AnswerPerson);
    for i := 0 to |people|
      invariant |done| == i
      invariant forall k | 0 <= k < i :: people[k].Value() == done[k]
      invariant forall k | i <= k < |people| :: people[k].Value() == before[k]
      invariant Each(before, answers, AnswerPerson) == EachFrom(done, before, answers, AnswerPerson, i)
    {
      EachStep(done, before, answers, AnswerPerson, i);
      ghost var after := AnswerPerson(before[i], answers[i]).0;
      var outcome := people[i].Answer(answers[i]);
      if outcome.Err? {
        SameValues(people, done + [after] + before[i + 1..]);
        return outcome;
      }
      done := done + [after];
    }
    EachEnd(done, before, answers, AnswerPerson);
    SameValues(people, done);
    return Ok(());
  }

  method PeopleSubmissionPairs(people: seq<AssessmentPerson>) returns (pairs: seq<Pair>)
    ensures pairs == PeoplePairs(Values(people))
  {
    hide QuestionsPairs, PeoplePairs, Values;
    pairs := [];
    ghost var values := Values(people);
    assert values[0..] == values;
    for i := 0 to |people|
      invariant PeoplePairs(values) == pairs + PeoplePairs(values[i..])
    {
      PeopleRound(pairs, values[i..]);
      assert values[i..][1..] == values[i + 1..];
      var own := people[i].SubmissionPairs();
      pairs := pairs + own;
    }
    PeopleEnd(pairs, values[|people|..]);
  }

  // ---------------------------------------------------------------- the form

  class AssessmentForm {
    const transaction: seq<Field>
    var suggestion: Option<Field>
    const scoreName: string
    var score: nat
    const teachers: seq<AssessmentPerson>
    const assistants: seq<AssessmentPerson>

    /** No person is in a form twice, as ownership guarantees in the source. */
    ghost predicate Valid() {
      Distinct(teachers + assistants)
    }

    ghost function People(): set<AssessmentPerson> {
      set p | p in teachers + assistants
    }

    ghost function Value(): FormValue
      reads this, People()
    {
      FormValue(transaction, suggestion, scoreName, score, Values(teachers), Values(assistants))
    }

    constructor (transaction: seq<Field>, suggestion: Option<Field>, scoreName: string, score: nat,
                 teachers: seq<AssessmentPerson>, assistants: seq<AssessmentPerson>)
      requires Distinct(teachers + assistants)
      ensures Valid()
      ensures Value() == FormValue(transaction, suggestion, scoreName, score, Values(teachers), Values(assistants))
    {
      this.transaction := transaction;
      this.suggestion := suggestion;
      this.scoreName := scoreName;
      this.score := score;
      this.teachers := teachers;
      this.assistants := assistants;
    }

    method SetScore(newScore: nat) returns (r: Outcome)
      modifies this`score
      ensures r == if InRange(newScore) then Ok(()) else Err(ScoreOutOfRange)
      ensures score == if InRange(newScore) then newScore else old(score)
    {
      if !InRange(newScore) {
        return Err(ScoreOutOfRange);
      }
      score := newScore;
      return Ok(());
    }

    method SetSuggestion(value: string) returns (r: Outcome)
      modifies this`suggestion
      ensures (suggestion, r) == WriteField(old(suggestion), value)
    {
      if suggestion.None? {
        return Err(NoSuggestionField);
      }
      if !ValidComponent(value) {
        return Err(InvalidValue);
      }
      suggestion := Some(Field(suggestion.value.name, value));
      return Ok(());
    }

    /** `AssessmentAnswers::apply_to`; on an error the form may be half applied. */
    method ApplyAnswers(answers: Answers) returns (r: Outcome)
      requires Valid()
      modifies this`score, this`suggestion, People()
      ensures (Value(), r) == Apply(old(Value()), answers)
      ensures r.Ok? <==> Fits(old(Value()), answers)
      ensures r.Ok? ==> Answered(old(Value()), answers, Value())
      ensures Owned(Value()) == Owned(old(Value()))
      ensures Value() == old(Value()) <==> Held(old(Value()), answers)
    {
      hide Owned, Answered, Fits, Held, AnswerPeople, Values, Apply, WriteField, InRange;
      ghost var before := Value();
      FormKeptExactly(before, answers);
      ApplySucceedsExactly(before, answers);
      ApplyKeepsOwned(before, answers);
      ApplyInStages(before, answers);
      SplitDistinct(teachers, assistants);
      r := SetScore(answers.score);
      if r.Err? {
        return;
      }
      if answers.suggestion.Some? {
        r := SetSuggestion(answers.suggestion.value);
        if r.Err? {
          return;
        }
      }
      r := ApplyPersonAnswers(teachers, answers.teachers);
      SameValues(assistants, before.assistants);
      if r.Err? {
        return;
      }
      ghost var taught := Values(teachers);
      r := ApplyPersonAnswers(assistants, answers.assistants);
      SameValues(teachers, taught);
    }

    method FieldCount() returns (count: nat)
      ensures count == |FormPairs(Value())|
    {
      var taught := PeopleSubmissionPairs(teachers);
      var assisted := PeopleSubmissionPairs(assistants);
      FieldPairsLength(transaction);
      count := |transaction| + 1 + (if suggestion.Some? then 1 else 0) + |taught| + |assisted|;
    }

    /** The first half of `serialize`. */
    method SubmissionPairs() returns (pairs: seq<Pair>)
      ensures pairs == FormPairs(Value()) && Carries(pairs, Value())
    {
      hide Values, PeoplePairs, Decimal, Carries;
      FormStands(Value());
      pairs := TransactionPairs(transaction);
      if suggestion.Some? {
        pairs := pairs + [(suggestion.value.name, suggestion.value.value)];
      }
      pairs := pairs + [(scoreName, Decimal(score))];
      var taught := PeopleSubmissionPairs(teachers);
      var assisted := PeopleSubmissionPairs(assistants);
      assert OptionalPair(None) == [];
      pairs := pairs + taught + assisted;
    }

    /** The submission body, proved to decode back to the pairs of the form. */
    method Serialize() returns (body: string)
      ensures body == BodyOf(FormPairs(Value()))
      ensures DecodeBody(body) == Some(FormPairs(Value()))
      ensures |Split(body, '&')| == |FormPairs(Value())| && Submits(body, Value())
    {
      hide FormPairs, BodyOf, DecodeBody, Split, Values, Carries;
      var pairs := SubmissionPairs();
      body := RenderBody(pairs);
      BodyRoundTrip(pairs);
    }
  }

  method TransactionPairs(transaction: seq<Field>) returns (pairs: seq<Pair>)
    ensures pairs == FieldPairs(transaction)
  {
    pairs := [];
    for i := 0 to |transaction|
      invariant FieldPairs(transaction) == pairs + FieldPairs(transaction[i..])
    {
      assert transaction[i..][1..] == transaction[i + 1..];
      pairs := pairs + [(transaction[i].name, transaction[i].value)];
    }
    assert transaction[|transaction|..] == [];
  }

  /** The stages of `apply_to`, one implication each. */
  lemma ApplyInStages(form: FormValue, a: Answers)
    ensures
      var r := Apply(form, a);
      var scored := form.(score := a.score);
      var commented :=
        if a.suggestion.None? then scored else scored.(suggestion := WriteField(form.suggestion, a.suggestion.value).0);
      var taught := commented.(teachers := AnswerPeople(form.teachers, a.teachers).0);
      if !InRange(a.score) then r == (form, Err(ScoreOutOfRange))
      else if a.suggestion.Some? && WriteField(form.suggestion, a.suggestion.value).1.Err? then
        r == (commented, WriteField(form.suggestion, a.suggestion.value).1)
      else if AnswerPeople(form.teachers, a.teachers).1.Err?
          then r == (taught, AnswerPeople(form.teachers, a.teachers).1)
      else r == (taught.(assistants := AnswerPeople(form.assistants, a.assistants).0),
                 AnswerPeople(form.assistants, a.assistants).1)
  {
    hide AnswerPeople, InRange;
  }

  lemma SplitDistinct(a: seq<AssessmentPerson>, b: seq<AssessmentPerson>)
    requires Distinct(a + b)
    ensures Distinct(a) && Distinct(b)
    ensures forall p | p in a :: p !in b
  {
    var all := a + b;
    forall i, j | 0 <= i < j < |b|
      ensures b[i] != b[j]
    {
      assert all[|a| + i] == b[i] && all[|a| + j] == b[j];
    }
    forall i, j | 0 <= i < |a| && 0 <= j < |b|
      ensures a[i] != b[j]
    {
      assert all[i] == a[i] && all[|a| + j] == b[j];
    }
    forall i, j | 0 <= i < j < |a|
      ensures a[i] != a[j]
    {
      assert all[i] == a[i] && all[j] == a[j];
    }
  }

  lemma SameValues(people: seq<AssessmentPerson>, values: seq<PersonValue>)
    requires |values| == |people| && forall i | 0 <= i < |people| :: people[i].Value() == values[i]
    ensures Values(people) == values
  {
  }

  lemma {:induction false} FieldPairsLength(fields: seq<Field>)
    ensures |FieldPairs(fields)| == |fields|
  {
    if fields != [] {
      FieldPairsLength(fields[1..]);
    }
  }

  /** One round of the loop: a separator unless the body is empty, then the encoded pair. */
  lemma BodyGrows(pairs: seq<Pair>, i: nat, body: string)
    requires i < |pairs| && body == BodyOf(pairs[..i]) && (body == "" <==> i == 0)
    ensures BodyOf(pairs[..i + 1]) == (if body == "" then body else body + "&") + EncodePair(pairs[i])
    ensures EncodePair(pairs[i]) != ""
  {
    hide EncodeText, Join, EncodePairs;
    EncodePairsSnoc(pairs[..i], pairs[i]);
    JoinSnoc(EncodePairs(pairs[..i]), EncodePair(pairs[i]), '&');
    assert pairs[..i + 1] == pairs[..i] + [pairs[i]];
  }

  /** The loop at the end of `serialize`. */
  method RenderBody(pairs: seq<Pair>) returns (body: string)
    ensures body == BodyOf(pairs)
  {
    hide EncodeText, BodyOf;
    body := "";
    NothingEncoded();
    assert pairs[..0] == [];
    for i := 0 to |pairs|
      invariant body == BodyOf(pairs[..i])
      invariant body == "" <==> i == 0
    {
      BodyGrows(pairs, i, body);
      var name := PercentEncode(UriComponent, pairs[i].0);
      var value := PercentEncode(UriComponent, pairs[i].1);
      if body != "" {
        body := body + "&";
      }
      PieceByPiece(body, name, value);
      body := body + name;
      body := body + "=";
      body := body + value;
    }
    assert pairs[..|pairs|] == pairs;
  }

  lemma PieceByPiece(body: string, name: string, value: string)
    ensures body + name + "=" + value == body + (name + "=" + value)
  {
  }

  lemma NothingEncoded()
    ensures BodyOf([]) == ""
  {
  }

  lemma {:induction false} EncodePairsSnoc(pairs: seq<Pair>, last: Pair)
    ensures EncodePairs(pairs + [last]) == EncodePairs(pairs) + [EncodePair(last)]
    ensures |EncodePairs(pairs)| == |pairs|
  {
    if pairs == [] {
      assert ([] + [last])[1..] == [];
    } else {
      EncodePairsSnoc(pairs[1..], last);
      assert (pairs + [last])[1..] == pairs[1..] + [last];
    }
  }
}
