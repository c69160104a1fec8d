/**
 The submission body: the pairs a form submits, their form encoding, and the
 decoder that recovers them.
 */
module AssessmentBody {
  import opened Wrappers
  import opened Text
  import opened PercentCoding
  import opened AssessmentValues

  type Pair = (string, string)

  function FieldPair(f: Field): Pair {
    (f.name, f.value)
  }

  function FieldPairs(fields: seq<Field>): seq<Pair> {
    if fields == [] then [] else [FieldPair(fields[0])] + FieldPairs(fields[1..])
  }

  function OptionalPair(field: Option<Field>): seq<Pair> {
    match field
    case None => []
    case Some(f) => [FieldPair(f)]
  }

  /** Companion values, then the comment, then the score. */
  function QuestionPairs(q: Question): (pairs: seq<Pair>) {
    FieldPairs(q.others) + OptionalPair(q.suggestion) + [(q.scoreName, Decimal(q.score))]
  }

  function QuestionsPairs(questions: seq<Question>): seq<Pair> {
    if questions == [] then [] else QuestionPairs(questions[0]) + QuestionsPairs(questions[1..])
  }

  function PeoplePairs(people: seq<PersonValue>): seq<Pair> {
    if people == [] then [] else QuestionsPairs(people[0].questions) + PeoplePairs(people[1..])
  }

  /** Everything a submission carries, in the order of the form. */
  function FormPairs(form: FormValue): (pairs: seq<Pair>)
    ensures pairs != []
  {
    FieldPairs(form.transaction) + OptionalPair(form.suggestion) + [(form.scoreName, Decimal(form.score))]
    + PeoplePairs(form.teachers) + PeoplePairs(form.assistants)
  }

  function EncodePair(pair: Pair): string {
    EncodeText(UriComponent, pair.0) + "=" + EncodeText(UriComponent, pair.1)
  }

  function EncodePairs(pairs: seq<Pair>): seq<string> {
    if pairs == [] then [] else [EncodePair(pairs[0])] + EncodePairs(pairs[1..])
  }

  function BodyOf(pairs: seq<Pair>): string {
    Join(EncodePairs(pairs), '&')
  }

  // ---------------------------------------------------------------- the reader of a body

  function DecodePair(piece: string): Option<Pair> {
    var halves := Split(piece, '=');
    if |halves| != 2 then None
    else
      match (DecodeText(halves[0]), DecodeText(halves[1]))
      case (Some(name), Some(value)) => Some((name, value))
      case _ => None
  }

  function DecodePairs(pieces: seq<string>): Option<seq<Pair>> {
    if pieces == [] then Some([])
    else
      match (DecodePair(pieces[0]), DecodePairs(pieces[1..]))
      case (Some(pair), Some(rest)) => Some([pair] + rest)
      case _ => None
  }

  /** Split on `&`, split each piece on `=`, decode both halves. */
  function DecodeBody(body: string): Option<seq<Pair>> {
    DecodePairs(Split(body, '&'))
  }

  lemma DecodePairOfEncode(pair: Pair)
    ensures DecodePair(EncodePair(pair)) == Some(pair) && '&' !in EncodePair(pair)
  {
    hide EncodeText, DecodeText, Split;
    EncodedTextHasNoSeparator(UriComponent, pair.0);
    EncodedTextHasNoSeparator(UriComponent, pair.1);
    var name, value := EncodeText(UriComponent, pair.0), EncodeText(UriComponent, pair.1);
    SplitPiece(name, value, '=');
    SplitPiece(value, "", '=');
    DecodeOfEncode(UriComponent, pair.0);
    DecodeOfEncode(UriComponent, pair.1);
  }

  lemma {:induction false} DecodePairsOfEncode(pairs: seq<Pair>)
    ensures DecodePairs(EncodePairs(pairs)) == Some(pairs)
    ensures |EncodePairs(pairs)| == |pairs|
    ensures forall piece | piece in EncodePairs(pairs) :: '&' !in piece
  {
    hide DecodePair, EncodePair;
    if pairs != [] {
      DecodePairOfEncode(pairs[0]);
      DecodePairsOfEncode(pairs[1..]);
      assert pairs == [pairs[0]] + pairs[1..];
    }
  }

  /** The body decodes to exactly the ordered pairs it was made of, one piece for each. */
  lemma BodyRoundTrip(pairs: seq<Pair>)
    requires pairs != []
    ensures DecodeBody(BodyOf(pairs)) == Some(pairs)
    ensures |Split(BodyOf(pairs), '&')| == |pairs|
  {
    DecodePairsOfEncode(pairs);
    SplitOfJoin(EncodePairs(pairs), '&');
  }

  /** Distinct pair lists are submitted as distinct bodies. */
  lemma BodyIsInjective(a: seq<Pair>, b: seq<Pair>)
    requires a != [] && b != [] && BodyOf(a) == BodyOf(b)
    ensures a == b
  {
    BodyRoundTrip(a);
    BodyRoundTrip(b);
  }

  // ---------------------------------------------------------------- who owns what

  function Names(pairs: seq<Pair>): seq<string> {
    seq(|pairs|, i requires 0 <= i < |pairs| => pairs[i].0)
  }

  lemma NamesConcat(a: seq<Pair>, b: seq<Pair>)
    ensures Names(a + b) == Names(a) + Names(b)
  {
  }

  lemma QuestionNames(q: Question)
    ensures Names(QuestionPairs(q)) == Names(QuestionPairs(BlankQuestion(q)))
  {
    NamesConcat(FieldPairs(q.others) + OptionalPair(q.suggestion), [(q.scoreName, Decimal(q.score))]);
    NamesConcat(FieldPairs(q.others), OptionalPair(q.suggestion));
    var b := BlankQuestion(q);
    NamesConcat(FieldPairs(b.others) + OptionalPair(b.suggestion), [(b.scoreName, Decimal(b.score))]);
    NamesConcat(FieldPairs(b.others), OptionalPair(b.suggestion));
    hide Decimal, FieldPairs;
    assert Names([(q.scoreName, Decimal(q.score))]) == [q.scoreName] == Names([(b.scoreName, Decimal(b.score))]);
    assert Names(OptionalPair(q.suggestion)) == Names(OptionalPair(b.suggestion));
  }

  lemma {:induction false} QuestionsNames(questions: seq<Question>)
    ensures Names(QuestionsPairs(questions)) == Names(QuestionsPairs(BlankQuestions(questions)))
  {
    if questions != [] {
      hide QuestionPairs, Names, BlankQuestions, BlankQuestion;
      BlankTail(questions);
      QuestionNames(questions[0]);
      QuestionsNames(questions[1..]);
      NamesConcat(QuestionPairs(questions[0]), QuestionsPairs(questions[1..]));
      var b := BlankQuestions(questions);
      assert b[1..] == BlankQuestions(questions[1..]);
      NamesConcat(QuestionPairs(b[0]), QuestionsPairs(b[1..]));
    }
  }

  lemma {:induction false} PeopleNames(people: seq<PersonValue>)
    ensures Names(PeoplePairs(people)) == Names(PeoplePairs(BlankPeople(people)))
  {
    if people != [] {
      hide Names, BlankPeople, QuestionsPairs, BlankQuestions;
      BlankPeopleTail(people);
      QuestionsNames(people[0].questions);
      PeopleNames(people[1..]);
      NamesConcat(QuestionsPairs(people[0].questions), PeoplePairs(people[1..]));
      var b := BlankPeople(people);
      assert b[1..] == BlankPeople(people[1..]);
      NamesConcat(QuestionsPairs(b[0].questions), PeoplePairs(b[1..]));
    }
  }

  lemma FormNames(form: FormValue)
    ensures Names(FormPairs(form)) == Names(FormPairs(Owned(form)))
  {
    hide Names, PeoplePairs, BlankPeople, FieldPairs, Decimal;
    var b := Owned(form);
    var head, blankHead := FieldPairs(form.transaction), FieldPairs(b.transaction);
    HeadNames(head, form.suggestion, form.scoreName, Decimal(form.score), b.suggestion, Decimal(b.score));
    var front := head + OptionalPair(form.suggestion) + [(form.scoreName, Decimal(form.score))];
    var blankFront := blankHead + OptionalPair(b.suggestion) + [(b.scoreName, Decimal(b.score))];
    PeopleNames(form.teachers);
    PeopleNames(form.assistants);
    NamesConcat(front, PeoplePairs(form.teachers));
    NamesConcat(front + PeoplePairs(form.teachers), PeoplePairs(form.assistants));
    NamesConcat(blankFront, PeoplePairs(b.teachers));
    NamesConcat(blankFront + PeoplePairs(b.teachers), PeoplePairs(b.assistants));
  }

  lemma HeadNames(
        head: seq<Pair>, field: Option<Field>, scoreName: string, score: string, blank: Option<Field>,
        blankScore: string)
    requires blank == BlankField(field)
    ensures Names(head + OptionalPair(field) + [(scoreName, score)]) ==
            Names(head + OptionalPair(blank) + [(scoreName, blankScore)])
  {
  }

  /**
   Applying answers, accepted or not, leaves the names of the body and the number
   of its pairs as the service rendered them.
   */
  lemma ApplyKeepsNames(form: FormValue, a: Answers)
    ensures Names(FormPairs(Apply(form, a).0)) == Names(FormPairs(form))
    ensures |FormPairs(Apply(form, a).0)| == |FormPairs(form)|
  {
    hide Owned, FormPairs, Apply;
    var after := Apply(form, a).0;
    ApplyKeepsOwned(form, a);
    FormNames(form);
    FormNames(after);
    assert |Names(FormPairs(after))| == |FormPairs(after)| && |Names(FormPairs(form))| == |FormPairs(form)|;
  }

  /** The transaction pairs lead every body, with the service's own values. */
  lemma ApplyKeepsTransaction(form: FormValue, a: Answers)
    ensures FieldPairs(form.transaction) <= FormPairs(Apply(form, a).0)
  {
    hide PeoplePairs, FieldPairs, AnswerPeople;
  }
}
