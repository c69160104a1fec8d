/**
 What a submission body carries and where: every value of the form at a place that is
 counted off from the form itself.
 */
module AssessmentPairs {
  import opened Wrappers
  import opened Text
  import opened AssessmentValues
  import opened AssessmentBody

  // ---------------------------------------------------------------- counting

  /** A question submits its companion values, its comment if it has one, and its score. */
  function Width(q: Question): nat {
    |q.others| + (if q.suggestion.Some? then 1 else 0) + 1
  }

  function QuestionsWidth(questions: seq<Question>): nat {
    if |questions| == 0 then 0 else Width(questions[0]) + QuestionsWidth(questions[1..])
  }

  function PeopleWidth(people: seq<PersonValue>): nat {
    if |people| == 0 then 0 else QuestionsWidth(people[0].questions) + PeopleWidth(people[1..])
  }

  /** The transaction, the overall comment if there is one, and the overall score. */
  function HeadWidth(form: FormValue): nat {
    |form.transaction| + (if form.suggestion.Some? then 1 else 0) + 1
  }

  /** How many pairs of the people come before question `j` of person `i`. */
  function Offset(people: seq<PersonValue>, i: nat, j: nat): nat
    requires i < |people| && j < |people[i].questions|
  {
    PeopleWidth(people[..i]) + QuestionsWidth(people[i].questions[..j])
  }

  // ---------------------------------------------------------------- what stands where

  /** The fields stand at `at`, in order, each under its name with its value. */
  predicate FieldsAt(pairs: seq<Pair>, at: nat, fields: seq<Field>) {
    at + |fields| <= |pairs| && forall k | 0 <= k < |fields| :: pairs[at + k] == (fields[k].name, fields[k].value)
  }

  /** So does the comment, if there is one, and after it the score. */
  predicate ScoredAt(pairs: seq<Pair>, at: nat, comment: Option<Field>, scoreName: string, score: nat) {
    var scoreAt := at + if comment.Some? then 1 else 0;
    && scoreAt < |pairs|
    && (comment.Some? ==> pairs[at] == (comment.value.name, comment.value.value))
    && pairs[scoreAt] == (scoreName, Decimal(score))
  }

  predicate QuestionAt(pairs: seq<Pair>, at: nat, q: Question) {
    FieldsAt(pairs, at, q.others) && ScoredAt(pairs, at + |q.others|, q.suggestion, q.scoreName, q.score)
  }

  ghost predicate PeopleAt(pairs: seq<Pair>, at: nat, people: seq<PersonValue>) {
    forall i, j | 0 <= i < |people| && 0 <= j < |people[i].questions| ::
      QuestionAt(pairs, at + Offset(people, i, j), people[i].questions[j])
  }

  /** The pairs are those of the form, one for each place, and no more. */
  ghost predicate Carries(pairs: seq<Pair>, form: FormValue) {
    && |pairs| == HeadWidth(form) + PeopleWidth(form.teachers) + PeopleWidth(form.assistants)
    && FieldsAt(pairs, 0, form.transaction)
    && ScoredAt(pairs, |form.transaction|, form.suggestion, form.scoreName, form.score)
    && PeopleAt(pairs, HeadWidth(form), form.teachers)
    && PeopleAt(pairs, HeadWidth(form) + PeopleWidth(form.teachers), form.assistants)
  }

  // ---------------------------------------------------------------- proofs

  lemma FieldsShift(a: seq<Pair>, pairs: seq<Pair>, b: seq<Pair>, at: nat, fields: seq<Field>)
    requires FieldsAt(pairs, at, fields)
    ensures FieldsAt(a + pairs + b, |a| + at, fields)
  {
    var all := a + pairs + b;
    forall k | 0 <= k < |fields|
      ensures all[|a| + at + k] == (fields[k].name, fields[k].value)
    {
      assert all[|a| + (at + k)] == pairs[at + k];
    }
  }

  lemma ScoredShift(
      a: seq<Pair>, pairs: seq<Pair>, b: seq<Pair>, at: nat, comment: Option<Field>, scoreName: string, score: nat)
    requires ScoredAt(pairs, at, comment, scoreName, score)
    ensures ScoredAt(a + pairs + b, |a| + at, comment, scoreName, score)
  {
    hide Decimal;
    var all := a + pairs + b;
    assert all[|a| + at] == pairs[at];
    assert comment.Some? ==> all[|a| + (at + 1)] == pairs[at + 1];
  }

  lemma QuestionShift(a: seq<Pair>, pairs: seq<Pair>, b: seq<Pair>, at: nat, q: Question)
    requires QuestionAt(pairs, at, q)
    ensures QuestionAt(a + pairs + b, |a| + at, q)
  {
    hide FieldsAt, ScoredAt;
    FieldsShift(a, pairs, b, at, q.others);
    ScoredShift(a, pairs, b, at + |q.others|, q.suggestion, q.scoreName, q.score);
  }

  lemma {:induction false} FieldsStand(fields: seq<Field>)
    ensures |FieldPairs(fields)| == |fields| && FieldsAt(FieldPairs(fields), 0, fields)
  {
    if fields != [] {
      FieldsStand(fields[1..]);
      var rest := FieldPairs(fields[1..]);
      assert FieldPairs(fields) == [FieldPair(fields[0])] + rest;
      forall k | 0 < k < |fields|
        ensures FieldPairs(fields)[k] == (fields[k].name, fields[k].value)
      {
        assert FieldPairs(fields)[k] == rest[0 + (k - 1)] && fields[1..][k - 1] == fields[k];
      }
    }
  }

  lemma ScoreStands(fields: seq<Field>, comment: Option<Field>, scoreName: string, score: nat)
    ensures var pairs := FieldPairs(fields) + OptionalPair(comment) + [(scoreName, Decimal(score))];
      && |pairs| == |fields| + (if comment.Some? then 1 else 0) + 1
      && FieldsAt(pairs, 0, fields) && ScoredAt(pairs, |fields|, comment, scoreName, score)
  {
    hide Decimal, FieldPairs, FieldsAt;
    FieldsStand(fields);
    var head, tail := FieldPairs(fields), OptionalPair(comment) + [(scoreName, Decimal(score))];
    assert head + OptionalPair(comment) + [(scoreName, Decimal(score))] == [] + head + tail;
    FieldsShift([], head, tail, 0, fields);
  }

  lemma QuestionStands(q: Question)
    ensures |QuestionPairs(q)| == Width(q) && QuestionAt(QuestionPairs(q), 0, q)
  {
    hide Decimal, FieldPairs, FieldsAt, ScoredAt;
    ScoreStands(q.others, q.suggestion, q.scoreName, q.score);
  }

  lemma {:induction false} QuestionsStand(questions: seq<Question>)
    ensures |QuestionsPairs(questions)| == QuestionsWidth(questions)
    ensures forall j | 0 <= j < |questions| ::
      QuestionAt(QuestionsPairs(questions), QuestionsWidth(questions[..j]), questions[j])
  {
    hide QuestionPairs, QuestionAt, Width;
    if |questions| > 0 {
      var first, rest := QuestionPairs(questions[0]), QuestionsPairs(questions[1..]);
      QuestionStands(questions[0]);
      QuestionsStand(questions[1..]);
      forall j | 0 <= j < |questions|
        ensures QuestionAt(first + rest, QuestionsWidth(questions[..j]), questions[j])
      {
        if j == 0 {
          assert [] + first + rest == first + rest;
          QuestionShift([], first, rest, 0, questions[0]);
        } else {
          assert questions[..j][1..] == questions[1..][..j - 1] && questions[1..][j - 1] == questions[j];
          assert first + rest + [] == first + rest;
          QuestionShift(first, rest, [], QuestionsWidth(questions[1..][..j - 1]), questions[j]);
        }
      }
    }
  }

  lemma {:induction false} PeopleStand(people: seq<PersonValue>)
    ensures |PeoplePairs(people)| == PeopleWidth(people)
    ensures PeopleAt(PeoplePairs(people), 0, people)
  {
    hide QuestionsPairs, QuestionAt, QuestionsWidth;
    if |people| > 0 {
      var first, rest := QuestionsPairs(people[0].questions), PeoplePairs(people[1..]);
      QuestionsStand(people[0].questions);
      PeopleStand(people[1..]);
      forall i, j | 0 <= i < |people| && 0 <= j < |people[i].questions|
        ensures QuestionAt(first + rest, 0 + Offset(people, i, j), people[i].questions[j])
      {
        if i == 0 {
          assert [] + first + rest == first + rest;
          QuestionShift([], first, rest, QuestionsWidth(people[0].questions[..j]), people[0].questions[j]);
        } else {
          assert people[..i][1..] == people[1..][..i - 1] && people[1..][i - 1] == people[i];
          assert first + rest + [] == first + rest;
          QuestionShift(first, rest, [], 0 + Offset(people[1..], i - 1, j), people[i].questions[j]);
        }
      }
    }
  }

  lemma PeopleShift(a: seq<Pair>, pairs: seq<Pair>, b: seq<Pair>, people: seq<PersonValue>)
    requires PeopleAt(pairs, 0, people)
    ensures PeopleAt(a + pairs + b, |a|, people)
  {
    hide QuestionAt;
    forall i, j | 0 <= i < |people| && 0 <= j < |people[i].questions|
      ensures QuestionAt(a + pairs + b, |a| + Offset(people, i, j), people[i].questions[j])
    {
      QuestionShift(a, pairs, b, 0 + Offset(people, i, j), people[i].questions[j]);
    }
  }

  lemma FormStands(form: FormValue)
    ensures Carries(FormPairs(form), form)
  {
    hide PeoplePairs, FieldPairs, Decimal, FieldsAt, ScoredAt, PeopleAt, PeopleWidth;
    var head := FieldPairs(form.transaction) + OptionalPair(form.suggestion) + [(form.scoreName, Decimal(form.score))];
    var taught, assisted := PeoplePairs(form.teachers), PeoplePairs(form.assistants);
    ScoreStands(form.transaction, form.suggestion, form.scoreName, form.score);
    PeopleStand(form.teachers);
    PeopleStand(form.assistants);
    var all := head + taught + assisted;
    assert [] + head + (taught + assisted) == all && all + [] == all;
    FieldsShift([], head, taught + assisted, 0, form.transaction);
    ScoredShift([], head, taught + assisted, |form.transaction|, form.suggestion, form.scoreName, form.score);
    PeopleShift(head, taught, assisted, form.teachers);
    PeopleShift(head + taught, assisted, [], form.assistants);
  }

  /** Decoding what a form submits gives every value of the form at its place, and nothing else. */
  ghost predicate Submits(body: string, form: FormValue) {
    DecodeBody(body).Some? && Carries(DecodeBody(body).value, form)
  }

  lemma BodyCarriesForm(form: FormValue)
    ensures Submits(BodyOf(FormPairs(form)), form)
  {
    hide FormPairs, Carries, DecodeBody, BodyOf;
    FormStands(form);
    BodyRoundTrip(FormPairs(form));
  }

  // ---------------------------------------------------------------- the answers on the wire

  /** The value a comment field is submitted with: the new comment, or the old one. */
  function CommentOf(field: Field, comment: Option<string>): string {
    if comment.Some? then comment.value else field.value
  }

  /** The answer stands where the question of the form as it was read has its place. */
  predicate AnswerAt(pairs: seq<Pair>, at: nat, q: Question, a: Answer) {
    var commentAt := at + |q.others|;
    var scoreAt := commentAt + if q.suggestion.Some? then 1 else 0;
    && scoreAt < |pairs|
    && FieldsAt(pairs, at, q.others)
    && (q.suggestion.Some? ==>
          pairs[commentAt] == (q.suggestion.value.name, CommentOf(q.suggestion.value, a.suggestion)))
    && pairs[scoreAt] == (q.scoreName, Decimal(a.score))
  }

  ghost predicate AnswersAt(pairs: seq<Pair>, at: nat, people: seq<PersonValue>, answers: seq<seq<Answer>>)
    requires PeopleFit(people, answers)
  {
    forall i, j | 0 <= i < |people| && 0 <= j < |people[i].questions| ::
      AnswerAt(pairs, at + Offset(people, i, j), people[i].questions[j], answers[i][j])
  }

  ghost predicate CarriesAnswers(pairs: seq<Pair>, form: FormValue, a: Answers)
    requires Fits(form, a)
  {
    var scoreAt := HeadWidth(form) - 1;
    && |pairs| == HeadWidth(form) + PeopleWidth(form.teachers) + PeopleWidth(form.assistants)
    && FieldsAt(pairs, 0, form.transaction)
    && (form.suggestion.Some? ==>
          pairs[|form.transaction|] == (form.suggestion.value.name, CommentOf(form.suggestion.value, a.suggestion)))
    && pairs[scoreAt] == (form.scoreName, Decimal(a.score))
    && AnswersAt(pairs, HeadWidth(form), form.teachers, a.teachers)
    && AnswersAt(pairs, HeadWidth(form) + PeopleWidth(form.teachers), form.assistants, a.assistants)
  }

  lemma {:induction false} QuestionsWidthKept(before: seq<Question>, after: seq<Question>)
    requires |before| == |after| && forall j | 0 <= j < |before| :: Width(before[j]) == Width(after[j])
    ensures QuestionsWidth(before) == QuestionsWidth(after)
  {
    hide Width;
    if |before| > 0 {
      QuestionsWidthKept(before[1..], after[1..]);
    }
  }

  lemma PersonWidthKept(p: PersonValue, answers: seq<Answer>, after: PersonValue, j: nat)
    requires PersonAnswered(p, answers, after) && j <= |answers|
    ensures QuestionsWidth(p.questions[..j]) == QuestionsWidth(after.questions[..j])
  {
    forall k | 0 <= k < j
      ensures Width(p.questions[k]) == Width(after.questions[k])
    {
      assert QuestionAnswered(p.questions[k], answers[k], after.questions[k]);
    }
    QuestionsWidthKept(p.questions[..j], after.questions[..j]);
  }

  lemma {:induction false} PeopleWidthKept(people: seq<PersonValue>, answers: seq<seq<Answer>>, after: seq<PersonValue>)
    requires PeopleAnswered(people, answers, after)
    ensures PeopleWidth(people) == PeopleWidth(after)
  {
    hide QuestionsWidth, PersonAnswered;
    if |people| > 0 {
      assert PersonAnswered(people[0], answers[0], after[0]);
      PersonCount(people[0], answers[0], after[0]);
      PersonWidthKept(people[0], answers[0], after[0], |answers[0]|);
      assert people[0].questions[..|answers[0]|] == people[0].questions;
      assert after[0].questions[..|answers[0]|] == after[0].questions;
      PeopleWidthKept(people[1..], answers[1..], after[1..]);
    }
  }

  lemma PersonCount(p: PersonValue, answers: seq<Answer>, after: PersonValue)
    requires PersonAnswered(p, answers, after)
    ensures |p.questions| == |answers| == |after.questions|
    ensures forall j | 0 <= j < |answers| :: QuestionAnswered(p.questions[j], answers[j], after.questions[j])
  {
  }

  lemma AnswerStands(pairs: seq<Pair>, at: nat, q: Question, a: Answer, after: Question)
    requires QuestionAnswered(q, a, after) && QuestionAt(pairs, at, after)
    ensures AnswerAt(pairs, at, q, a)
  {
    hide Decimal, FieldsAt;
  }

  lemma AnswersStand(
      pairs: seq<Pair>, at: nat, people: seq<PersonValue>, answers: seq<seq<Answer>>, after: seq<PersonValue>)
    requires PeopleFit(people, answers) && PeopleAnswered(people, answers, after) && PeopleAt(pairs, at, after)
    ensures AnswersAt(pairs, at, people, answers)
  {
    hide AnswerAt, QuestionAt, QuestionsWidth, PeopleWidth, QuestionAnswered, PersonAnswered;
    forall i, j | 0 <= i < |people| && 0 <= j < |people[i].questions|
      ensures AnswerAt(pairs, at + Offset(people, i, j), people[i].questions[j], answers[i][j])
    {
      assert PersonAnswered(people[i], answers[i], after[i]);
      PersonCount(people[i], answers[i], after[i]);
      PersonWidthKept(people[i], answers[i], after[i], j);
      PeopleAnsweredPrefix(people, answers, after, i);
      PeopleWidthKept(people[..i], answers[..i], after[..i]);
      assert QuestionAt(pairs, at + Offset(after, i, j), after[i].questions[j]);
      AnswerStands(pairs, at + Offset(people, i, j), people[i].questions[j], answers[i][j], after[i].questions[j]);
    }
  }

  lemma PeopleAnsweredPrefix(people: seq<PersonValue>, answers: seq<seq<Answer>>, after: seq<PersonValue>, i: nat)
    requires PeopleAnswered(people, answers, after) && i <= |people|
    ensures PeopleAnswered(people[..i], answers[..i], after[..i])
  {
    hide PersonAnswered;
  }

  /** When answers fit a form, the body submitted after them carries each answer where its question stands. */
  lemma AnswersAreSubmitted(form: FormValue, a: Answers)
    requires Fits(form, a)
    ensures var body := BodyOf(FormPairs(Apply(form, a).0));
      DecodeBody(body).Some? && CarriesAnswers(DecodeBody(body).value, form, a)
  {
    hide Apply, FormPairs, BodyOf, DecodeBody, PeopleAt, PeopleAnswered, PeopleFit, PeopleWidth, FieldsAt, AnswersAt,
        Decimal;
    ApplySucceedsExactly(form, a);
    var after := Apply(form, a).0;
    BodyCarriesForm(after);
    PeopleWidthKept(form.teachers, a.teachers, after.teachers);
    PeopleWidthKept(form.assistants, a.assistants, after.assistants);
    var pairs := DecodeBody(BodyOf(FormPairs(after))).value;
    AnswersStand(pairs, HeadWidth(form), form.teachers, a.teachers, after.teachers);
    AnswersStand(pairs, HeadWidth(form) + PeopleWidth(form.teachers), form.assistants, a.assistants, after.assistants);
  }
}
