/**
 The values of a questionnaire: what a form holds, what a caller answers, and what
 each setter makes of a form.  The objects of `AssessmentForms` are proved against
 these functions.
 */
module AssessmentValues {
  import opened Wrappers
  import opened Text
  import Utf8

  const MIN_SCORE: nat := 1
  const MAX_SCORE: nat := 7
  const MAX_FIELD_BYTES: nat := 4096

  datatype InputError = ScoreOutOfRange | InvalidValue | NoSuggestionField | UnknownQuestion

  type Outcome = Result<(), InputError>

  datatype Field = Field(name: string, value: string)

  datatype Question = Question(
    text: string,
    score: nat,
    scoreName: string,
    others: seq<Field>,
    suggestion: Option<Field>)

  datatype Role = Teacher | Assistant

  datatype PersonValue = PersonValue(name: string, role: Role, questions: seq<Question>)

  datatype FormValue = FormValue(
    transaction: seq<Field>,
    suggestion: Option<Field>,
    scoreName: string,
    score: nat,
    teachers: seq<PersonValue>,
    assistants: seq<PersonValue>)

  /** One question's answer; no comment leaves the current one. */
  datatype Answer = Answer(score: nat, suggestion: Option<string>)

  datatype Answers = Answers(
    score: nat,
    suggestion: Option<string>,
    teachers: seq<seq<Answer>>,
    assistants: seq<seq<Answer>>)

  predicate InRange(score: nat) {
    MIN_SCORE <= score <= MAX_SCORE
  }

  /** `valid_field_component`. */
  predicate ValidComponent(value: string) {
    Utf8.Len(value) <= MAX_FIELD_BYTES && forall i | 0 <= i < |value| :: !IsControl(value[i])
  }

  // ---------------------------------------------------------------- setters

  /** `AssessmentFormField::write` on an optional field. */
  function WriteField(field: Option<Field>, value: string): (Option<Field>, Outcome) {
    match field
    case None => (field, Err(NoSuggestionField))
    case Some(f) =>
      if ValidComponent(value) then (Some(Field(f.name, value)), Ok(())) else (field, Err(InvalidValue))
  }

  function WithScore(q: Question, score: nat): (Question, Outcome) {
    if InRange(score) then (q.(score := score), Ok(())) else (q, Err(ScoreOutOfRange))
  }

  function WithSuggestion(q: Question, value: string): (Question, Outcome) {
    var (field, outcome) := WriteField(q.suggestion, value);
    (q.(suggestion := field), outcome)
  }

  /** One round of `apply_person_answers`: the score, then the comment if there is one. */
  function AnswerQuestion(q: Question, a: Answer): (Question, Outcome) {
    var (scored, outcome) := WithScore(q, a.score);
    if outcome.Err? || a.suggestion.None? then (scored, outcome)
    else WithSuggestion(scored, a.suggestion.value)
  }

  /** Apply `f` pairwise, in order, and stop at the first error. */
  function Each<T, A>(xs: seq<T>, answers: seq<A>, f: (T, A) -> (T, Outcome)): (r: (seq<T>, Outcome))
    requires |xs| == |answers|
    ensures |r.0| == |xs|
  {
    if xs == [] then ([], Ok(()))
    else
      var (x, outcome) := f(xs[0], answers[0]);
      if outcome.Err? then ([x] + xs[1..], outcome)
      else
        var (rest, last) := Each(xs[1..], answers[1..], f);
        ([x] + rest, last)
  }

  function AnswerPerson(p: PersonValue, answers: seq<Answer>): (PersonValue, Outcome) {
    if |p.questions| != |answers| then (p, Err(UnknownQuestion))
    else
      var (questions, outcome) := Each(p.questions, answers, AnswerQuestion);
      (p.(questions := questions), outcome)
  }

  /** `apply_person_answers`. */
  function AnswerPeople(people: seq<PersonValue>, answers: seq<seq<Answer>>): (r: (seq<PersonValue>, Outcome))
    ensures |r.0| == |people|
  {
    if |people| != |answers| then (people, Err(UnknownQuestion))
    else Each(people, answers, AnswerPerson)
  }

  /** `apply_to`: overall score, overall comment, teachers, assistants. */
  function Apply(form: FormValue, a: Answers): (FormValue, Outcome) {
    if !InRange(a.score) then (form, Err(ScoreOutOfRange))
    else
      var scored := form.(score := a.score);
      var (field, outcome) :=
        if a.suggestion.None? then (form.suggestion, Ok(())) else WriteField(form.suggestion, a.suggestion.value);
      var commented := scored.(suggestion := field);
      if outcome.Err? then (commented, outcome)
      else
        var (teachers, outcome) := AnswerPeople(form.teachers, a.teachers);
        var taught := commented.(teachers := teachers);
        if outcome.Err? then (taught, outcome)
        else
          var (assistants, outcome) := AnswerPeople(form.assistants, a.assistants);
          (taught.(assistants := assistants), outcome)
  }

  // ---------------------------------------------------------------- when answers are accepted

  predicate CommentFits(field: Option<Field>, comment: Option<string>) {
    comment.Some? ==>
      && field.Some? && Utf8.Len(comment.value) <= 4096
      && forall i | 0 <= i < |comment.value| :: !IsControl(comment.value[i])
  }

  predicate QuestionFits(q: Question, a: Answer) {
    1 <= a.score <= 7 && CommentFits(q.suggestion, a.suggestion)
  }

  predicate PersonFits(p: PersonValue, answers: seq<Answer>) {
    |p.questions| == |answers| && forall j | 0 <= j < |answers| :: QuestionFits(p.questions[j], answers[j])
  }

  predicate PeopleFit(people: seq<PersonValue>, answers: seq<seq<Answer>>) {
    |people| == |answers| && forall i | 0 <= i < |answers| :: PersonFits(people[i], answers[i])
  }

  predicate Fits(form: FormValue, a: Answers) {
    && 1 <= a.score <= 7 && CommentFits(form.suggestion, a.suggestion)
    && PeopleFit(form.teachers, a.teachers) && PeopleFit(form.assistants, a.assistants)
  }

  /** The comment field after an accepted answer: an absent comment keeps the old value. */
  predicate Commented(before: Option<Field>, comment: Option<string>, after: Option<Field>) {
    if comment.None? then after == before
    else before.Some? && after == Some(Field(before.value.name, comment.value))
  }

  predicate QuestionAnswered(q: Question, a: Answer, after: Question) {
    && after.score == a.score && InRange(after.score)
    && Commented(q.suggestion, a.suggestion, after.suggestion)
    && after.text == q.text && after.scoreName == q.scoreName && after.others == q.others
  }

  predicate PersonAnswered(p: PersonValue, answers: seq<Answer>, after: PersonValue) {
    && after.name == p.name && after.role == p.role
    && |p.questions| == |answers| == |after.questions|
    && forall j | 0 <= j < |answers| :: QuestionAnswered(p.questions[j], answers[j], after.questions[j])
  }

  predicate PeopleAnswered(people: seq<PersonValue>, answers: seq<seq<Answer>>, after: seq<PersonValue>) {
    && |people| == |answers| == |after|
    && forall i | 0 <= i < |answers| :: PersonAnswered(people[i], answers[i], after[i])
  }

  predicate Answered(form: FormValue, a: Answers, after: FormValue) {
    && after.score == a.score && InRange(after.score)
    && Commented(form.suggestion, a.suggestion, after.suggestion)
    && PeopleAnswered(form.teachers, a.teachers, after.teachers)
    && PeopleAnswered(form.assistants, a.assistants, after.assistants)
    && after.transaction == form.transaction && after.scoreName == form.scoreName
  }

  lemma {:induction false} EachSucceeds<T, A>(xs: seq<T>, answers: seq<A>, f: (T, A) -> (T, Outcome))
    requires |xs| == |answers|
    ensures var r := Each(xs, answers, f);
      && (r.1.Ok? <==> forall i | 0 <= i < |xs| :: f(xs[i], answers[i]).1.Ok?)
      && (r.1.Ok? ==> forall i | 0 <= i < |xs| :: r.0[i] == f(xs[i], answers[i]).0)
  {
    if xs != [] {
      EachSucceeds(xs[1..], answers[1..], f);
      forall i | 0 < i < |xs|
        ensures xs[1..][i - 1] == xs[i] && answers[1..][i - 1] == answers[i]
      {
      }
    }
  }

  lemma PersonSucceeds(p: PersonValue, answers: seq<Answer>)
    ensures var r := AnswerPerson(p, answers);
      && (r.1.Ok? <==> PersonFits(p, answers))
      && (r.1.Ok? ==> PersonAnswered(p, answers, r.0))
  {
    if |p.questions| == |answers| {
      EachSucceeds(p.questions, answers, AnswerQuestion);
    }
  }

  lemma PeopleSucceed(people: seq<PersonValue>, answers: seq<seq<Answer>>)
    ensures var r := AnswerPeople(people, answers);
      && (r.1.Ok? <==> PeopleFit(people, answers))
      && (r.1.Ok? ==> PeopleAnswered(people, answers, r.0))
  {
    hide PersonFits, PersonAnswered;
    if |people| == |answers| {
      EachSucceeds(people, answers, AnswerPerson);
      forall i | 0 <= i < |people|
        ensures var r := AnswerPerson(people[i], answers[i]);
          (r.1.Ok? <==> PersonFits(people[i], answers[i])) &&
          (r.1.Ok? ==> PersonAnswered(people[i], answers[i], r.0))
      {
        PersonSucceeds(people[i], answers[i]);
      }
    }
  }

  /**
   Answers are applied exactly when people and question counts match, every score
   is in range and every comment has a field and fits it.  Then every answer is in
   the form, and nothing else changed.
   */
  lemma ApplySucceedsExactly(form: FormValue, a: Answers)
    ensures var r := Apply(form, a);
      && (r.1.Ok? <==> Fits(form, a))
      && (r.1.Ok? ==> Answered(form, a, r.0))
  {
    hide PeopleFit, PeopleAnswered, AnswerPeople;
    PeopleSucceed(form.teachers, a.teachers);
    PeopleSucceed(form.assistants, a.assistants);
  }

  // ---------------------------------------------------------------- the frame

  /** A form with everything a caller may set blanked out: what the service owns. */
  function BlankField(field: Option<Field>): Option<Field> {
    match field
    case None => None
    case Some(f) => Some(Field(f.name, ""))
  }

  function BlankQuestion(q: Question): Question {
    q.(score := 0, suggestion := BlankField(q.suggestion))
  }

  function BlankQuestions(qs: seq<Question>): seq<Question> {
    seq(|qs|, i requires 0 <= i < |qs| => BlankQuestion(qs[i]))
  }

  function BlankPerson(p: PersonValue): PersonValue {
    p.(questions := BlankQuestions(p.questions))
  }

  function BlankPeople(people: seq<PersonValue>): seq<PersonValue> {
    seq(|people|, i requires 0 <= i < |people| => BlankPerson(people[i]))
  }

  function Owned(form: FormValue): FormValue {
    form.(score := 0, suggestion := BlankField(form.suggestion),
          teachers := BlankPeople(form.teachers), assistants := BlankPeople(form.assistants))
  }

  lemma {:induction false} QuestionsKeepOwned(qs: seq<Question>, answers: seq<Answer>)
    requires |qs| == |answers|
    ensures BlankQuestions(Each(qs, answers, AnswerQuestion).0) == BlankQuestions(qs)
  {
    if qs != [] {
      QuestionsKeepOwned(qs[1..], answers[1..]);
      var after := Each(qs, answers, AnswerQuestion).0;
      BlankTail(qs);
      BlankTail(after);
      assert BlankQuestion(after[0]) == BlankQuestion(qs[0]);
      assert after[1..] == qs[1..] || after[1..] == Each(qs[1..], answers[1..], AnswerQuestion).0;
    }
  }

  lemma BlankTail(qs: seq<Question>)
    requires qs != []
    ensures BlankQuestions(qs) == [BlankQuestion(qs[0])] + BlankQuestions(qs[1..])
  {
  }

  lemma {:induction false} PeopleKeepOwned(people: seq<PersonValue>, answers: seq<seq<Answer>>)
    requires |people| == |answers|
    ensures BlankPeople(Each(people, answers, AnswerPerson).0) == BlankPeople(people)
  {
    if people != [] {
      PeopleKeepOwned(people[1..], answers[1..]);
      var after := Each(people, answers, AnswerPerson).0;
      PersonKeepsOwned(people[0], answers[0]);
      BlankPeopleTail(people);
      BlankPeopleTail(after);
      assert after[1..] == people[1..] || after[1..] == Each(people[1..], answers[1..], AnswerPerson).0;
    }
  }

  lemma BlankPeopleTail(people: seq<PersonValue>)
    requires people != []
    ensures BlankPeople(people) == [BlankPerson(people[0])] + BlankPeople(people[1..])
  {
  }

  lemma PersonKeepsOwned(p: PersonValue, answers: seq<Answer>)
    ensures BlankPerson(AnswerPerson(p, answers).0) == BlankPerson(p)
  {
    if |p.questions| == |answers| {
      QuestionsKeepOwned(p.questions, answers);
    }
  }

  /**
   Whatever the answers are, and whether they are accepted, refused at once or
   refused half-way: names, transaction values, companion values and the number of
   people, questions and fields stay the service's own.
   */
  lemma ApplyKeepsOwned(form: FormValue, a: Answers)
    ensures Owned(Apply(form, a).0) == Owned(form)
  {
    hide BlankPeople;
    if |form.teachers| == |a.teachers| {
      PeopleKeepOwned(form.teachers, a.teachers);
    }
    if |form.assistants| == |a.assistants| {
      PeopleKeepOwned(form.assistants, a.assistants);
    }
  }
}
