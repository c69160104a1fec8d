/**
 Reading one question row of a questionnaire: which input is the score, which the
 comment, and which values are carried along.
 */
module AssessmentQuestions {
  import opened Wrappers
  import opened Text
  import opened HtmlClose
  import opened HtmlElements
  import opened HtmlText
  import opened AssessmentValues

  /** `Panicked` is no error of the parser: there the scanner panics. */
  datatype QuestionError = UnrecognizedField | TooLarge | Panicked

  /** A failed scan, as the parser reports it. */
  function Reported(error: ScanError): QuestionError {
    if error.SplitCharacter? then Panicked else QuestionError.TooLarge
  }

  // ---------------------------------------------------------------- one input

  predicate Named(input: RawElement) {
    input.Attr("name").Some? && input.Attr("name").value != ""
  }

  /** `Others::is_ignored`. */
  predicate Ignored(input: RawElement) {
    input.Attr("type").Some? && Lower(Trim(input.Attr("type").value)) in {"button", "submit", "reset", "image", "file"}
  }

  /** An input that takes part in a submission. */
  predicate Takes(input: RawElement) {
    Named(input) && !Ignored(input)
  }

  function FieldOf(input: RawElement): Field
    requires Named(input)
  {
    Field(input.Attr("name").value, if input.Attr("value").Some? then input.Attr("value").value else "")
  }

  predicate Carryable(field: Field) {
    ValidComponent(field.name) && ValidComponent(field.value)
  }

  /** The service renders the comment, and nothing else, with a class. */
  predicate Classed(input: RawElement) {
    input.Attr("class").Some? && Trim(input.Attr("class").value) != ""
  }

  // ---------------------------------------------------------------- the inputs of a row

  /** The fields of the inputs other than the score, comments or not, in document order. */
  function FieldsBeside(inputs: seq<RawElement>, scoreName: string, classed: bool): seq<Field> {
    if |inputs| == 0 then []
    else
      var before, last := FieldsBeside(inputs[..|inputs| - 1], scoreName, classed), inputs[|inputs| - 1];
      if Takes(last) && FieldOf(last).name != scoreName && Classed(last) == classed
          then before + [FieldOf(last)] else before
  }

  predicate AllCarryable(inputs: seq<RawElement>) {
    forall i | 0 <= i < |inputs| && Takes(inputs[i]) :: Carryable(FieldOf(inputs[i]))
  }

  type Sorted = Result<(Option<Field>, seq<Field>), QuestionError>

  /** The comment and the other values: at most one comment, and nothing no form could hold. */
  function SortInputs(inputs: seq<RawElement>, scoreName: string): Sorted {
    var comments := FieldsBeside(inputs, scoreName, true);
    if !AllCarryable(inputs) || |comments| > 1 then Err(UnrecognizedField)
    else Ok((if |comments| == 1 then Some(comments[0]) else None, FieldsBeside(inputs, scoreName, false)))
  }

  /** The second loop of `parse_question_row`. */
  method ReadInputs(inputs: seq<RawElement>, scoreName: string) returns (r: Sorted)
    ensures r == SortInputs(inputs, scoreName)
  {
    hide Takes, Carryable, Classed;
    var suggestion: Option<Field> := None;
    var others: seq<Field> := [];
    assert inputs[..0] == [];
    for i := 0 to |inputs|
      invariant AllCarryable(inputs[..i])
      invariant FieldsBeside(inputs[..i], scoreName, true) == if suggestion.Some? then [suggestion.value] else []
      invariant FieldsBeside(inputs[..i], scoreName, false) == others
    {
      var input := inputs[i];
      FieldsSnoc(inputs, scoreName, i);
      if !Takes(input) {
        continue;
      }
      TakenIsNamed(input);
      var field := FieldOf(input);
      if !Carryable(field) {
        return Err(UnrecognizedField);
      }
      if field.name == scoreName {
        continue;
      }
      if Classed(input) {
        if suggestion.Some? {
          FieldsGrow(inputs, scoreName, i + 1);
          return Err(UnrecognizedField);
        }
        suggestion := Some(field);
        continue;
      }
      others := others + [field];
    }
    assert inputs[..|inputs|] == inputs;
    return Ok((suggestion, others));
  }

  lemma TakenIsNamed(input: RawElement)
    ensures Takes(input) ==> Named(input)
  {
  }

  lemma FieldsSnoc(inputs: seq<RawElement>, scoreName: string, i: nat)
    requires i < |inputs|
    ensures AllCarryable(inputs[..i + 1]) <==>
            AllCarryable(inputs[..i]) && (Takes(inputs[i]) ==> Named(inputs[i]) && Carryable(FieldOf(inputs[i])))
    ensures forall classed :: FieldsBeside(inputs[..i + 1], scoreName, classed) ==
              FieldsBeside(inputs[..i], scoreName, classed) +
                if Takes(inputs[i]) && Named(inputs[i]) && FieldOf(inputs[i]).name != scoreName &&
                    Classed(inputs[i]) == classed
                then [FieldOf(inputs[i])] else []
  {
    hide Carryable, Classed, Ignored;
    assert inputs[..i + 1][..i] == inputs[..i];
    assert forall k | 0 <= k < i :: inputs[..i + 1][k] == inputs[..i][k];
    assert inputs[..i + 1][i] == inputs[i];
  }

  lemma {:induction false} FieldsGrow(inputs: seq<RawElement>, scoreName: string, i: nat)
    requires i <= |inputs|
    ensures |FieldsBeside(inputs[..i], scoreName, true)| <= |FieldsBeside(inputs, scoreName, true)|
    decreases |inputs| - i
  {
    hide Takes, Classed;
    if i == |inputs| {
      assert inputs[..i] == inputs;
    } else {
      FieldsSnoc(inputs, scoreName, i);
      FieldsGrow(inputs, scoreName, i + 1);
    }
  }

  /** Everything an accepted row submits beside its score, each input once, in the order of its kind. */
  function Fields(inputs: seq<RawElement>): seq<Field> {
    if |inputs| == 0 then []
    else
      var before, last := Fields(inputs[..|inputs| - 1]), inputs[|inputs| - 1];
      if Takes(last) then before + [FieldOf(last)] else before
  }

  function NotScore(fields: seq<Field>, scoreName: string): seq<Field> {
    if |fields| == 0 then []
    else
      var before, last := NotScore(fields[..|fields| - 1], scoreName), fields[|fields| - 1];
      if last.name != scoreName then before + [last] else before
  }

  /** No input is lost and none is carried twice: comment and others are all of them but the score. */
  lemma {:induction false} InputsAreConserved(inputs: seq<RawElement>, scoreName: string)
    ensures multiset(FieldsBeside(inputs, scoreName, true)) + multiset(FieldsBeside(inputs, scoreName, false)) ==
            multiset(NotScore(Fields(inputs), scoreName))
  {
    hide Takes, Classed, FieldOf;
    if |inputs| > 0 {
      var before, last := inputs[..|inputs| - 1], inputs[|inputs| - 1];
      InputsAreConserved(before, scoreName);
      TakenIsNamed(last);
      if Takes(last) {
        assert (Fields(before) + [FieldOf(last)])[..|Fields(before)|] == Fields(before);
      }
    }
  }

  // ---------------------------------------------------------------- the score

  function NameOf(input: RawElement): string {
    if input.Attr("name").Some? then input.Attr("name").value else ""
  }

  /** The names of the named inputs, in order. */
  function NamesOf(inputs: seq<RawElement>): seq<string> {
    if |inputs| == 0 then []
    else
      var before, last := NamesOf(inputs[..|inputs| - 1]), inputs[|inputs| - 1];
      if Named(last) then before + [NameOf(last)] else before
  }

  function ListInputs(list: RawElement): Elements {
    InputName();
    ScanFrom(list.inner, "input", 0, "child element count")
  }

  lemma InputName()
    ensures IsTagName("input") && IsTagName("ul") && IsTagName("td")
  {
  }

  type ScoreName = Result<Option<string>, QuestionError>

  /** The lists of a row, one after another; `found` is the name seen so far. */
  function ScoreNameFrom(lists: seq<RawElement>, found: Option<string>): ScoreName {
    if |lists| == 0 then Ok(found)
    else
      var inputs := ListInputs(lists[0]);
      if inputs.Err? then Err(Reported(inputs.error))
      else
        var names := NamesOf(inputs.value);
        if |names| + (if found.Some? then 1 else 0) > 1 then Err(UnrecognizedField)
        else ScoreNameFrom(lists[1..], if |names| == 1 then Some(names[0]) else found)
  }

  /** The first, doubly nested, loop of `parse_question_row`. */
  method FindScoreName(lists: seq<RawElement>) returns (r: ScoreName)
    ensures r == ScoreNameFrom(lists, None)
  {
    hide ListInputs, NamesOf;
    var found: Option<string> := None;
    for i := 0 to |lists|
      invariant ScoreNameFrom(lists, None) == ScoreNameFrom(lists[i..], found)
    {
      assert lists[i..][0] == lists[i] && lists[i..][1..] == lists[i + 1..];
      var inputs := ReadListInputs(lists[i]);
      if inputs.Err? {
        return Err(Reported(inputs.error));
      }
      var next := ReadListName(inputs.value, found);
      if next.Err? {
        return Err(next.error);
      }
      found := next.value;
    }
    return Ok(found);
  }

  method ReadListInputs(list: RawElement) returns (r: Elements)
    ensures r == ListInputs(list)
  {
    InputName();
    r := DirectChildren(list.inner, "input");
  }

  /** The inner loop: a second named input, in this list or an earlier one, is an error. */
  method ReadListName(inputs: seq<RawElement>, before: Option<string>) returns (r: ScoreName)
    ensures var names := NamesOf(inputs);
            r == if |names| + (if before.Some? then 1 else 0) > 1 then Err(UnrecognizedField)
                 else Ok(if |names| == 1 then Some(names[0]) else before)
  {
    hide Named;
    var found := before;
    assert inputs[..0] == [];
    for k := 0 to |inputs|
      invariant |NamesOf(inputs[..k])| + (if before.Some? then 1 else 0) <= 1
      invariant found == if |NamesOf(inputs[..k])| == 1 then Some(NamesOf(inputs[..k])[0]) else before
    {
      assert inputs[..k + 1][..k] == inputs[..k];
      if !Named(inputs[k]) {
        continue;
      }
      var name := NameOf(inputs[k]);
      if found.Some? {
        NamesGrow(inputs, k + 1);
        return Err(UnrecognizedField);
      }
      found := Some(name);
    }
    assert inputs[..|inputs|] == inputs;
    return Ok(found);
  }

  lemma {:induction false} NamesGrow(inputs: seq<RawElement>, k: nat)
    requires k <= |inputs|
    ensures |NamesOf(inputs[..k])| <= |NamesOf(inputs)|
    decreases |inputs| - k
  {
    if k == |inputs| {
      assert inputs[..k] == inputs;
    } else {
      assert inputs[..k + 1][..k] == inputs[..k];
      NamesGrow(inputs, k + 1);
    }
  }

  /** The named inputs of all lists. */
  function AllNames(lists: seq<RawElement>): seq<string> {
    if |lists| == 0 then []
    else (if ListInputs(lists[0]).Ok? then NamesOf(ListInputs(lists[0]).value) else []) + AllNames(lists[1..])
  }

  predicate AllRead(lists: seq<RawElement>) {
    forall i | 0 <= i < |lists| :: ListInputs(lists[i]).Ok?
  }

  /** A score is found exactly when the lists hold one named input between them, none exactly when they hold none. */
  lemma {:induction false} ScoreNameExactly(lists: seq<RawElement>, found: Option<string>)
    ensures var names := (if found.Some? then [found.value] else []) + AllNames(lists);
            && (ScoreNameFrom(lists, found).Ok? <==> AllRead(lists) && |names| <= 1)
            && (ScoreNameFrom(lists, found).Ok? ==>
                  ScoreNameFrom(lists, found).value == if |names| == 1 then Some(names[0]) else None)
  {
    hide ListInputs, NamesOf;
    if |lists| > 0 {
      var inputs := ListInputs(lists[0]);
      assert AllRead(lists) <==> inputs.Ok? && AllRead(lists[1..]) by {
        assert forall i | 0 < i < |lists| :: lists[i] == lists[1..][i - 1];
      }
      if inputs.Ok? {
        var names := NamesOf(inputs.value);
        ScoreNameExactly(lists[1..], if |names| == 1 then Some(names[0]) else found);
      }
    }
  }

  // ---------------------------------------------------------------- the row

  type Parsed = Result<Option<Question>, QuestionError>

  function LiftElements(elements: Elements): Result<seq<RawElement>, QuestionError> {
    if elements.Err? then Err(Reported(elements.error)) else Ok(elements.value)
  }

  function Scanned(inner: string, name: string): Result<seq<RawElement>, QuestionError>
    requires IsTagName(name)
  {
    LiftElements(ScanFrom(inner, name, 0, "element count"))
  }

  /** The question of a row with this text, these lists and these inputs; without a score, no question. */
  function QuestionOf(
        text: string, lists: seq<RawElement>, inputs: Result<seq<RawElement>, QuestionError>): Parsed
  {
    var name := ScoreNameFrom(lists, None);
    if name.Err? then Err(name.error)
    else if name.value.None? then Ok(None)
    else if inputs.Err? then Err(inputs.error)
    else
      var sorted := SortInputs(inputs.value, name.value.value);
      if sorted.Err? then Err(sorted.error)
      else Ok(Some(Question(text, MIN_SCORE, name.value.value, sorted.value.1, sorted.value.0)))
  }

  /** The cell that holds the question: the second of four, and otherwise the first. */
  function LabelCell(cells: seq<RawElement>): RawElement
    requires |cells| > 0
  {
    if |cells| == 4 then cells[1] else cells[0]
  }

  /** The question of a row, on the source between its tags. */
  function RowQuestion(inner: string): Parsed {
    InputName();
    var cells := LiftElements(ScanFrom(inner, "td", 0, "child element count"));
    if cells.Err? then Err(cells.error)
    else if |cells.value| == 0 then Ok(None)
    else
      var text, lists := TextOf(LabelCell(cells.value).inner), Scanned(inner, "ul");
      if text.None? then Err(Panicked)
      else if lists.Err? then Err(lists.error)
      else QuestionOf(text.value, lists.value, Scanned(inner, "input"))
  }

  /** `parse_question_row`. */
  method ParseQuestionRow(inner: string) returns (r: Parsed)
    ensures r == RowQuestion(inner)
  {
    hide ScanFrom, ScoreNameFrom, SortInputs, TextOf;
    InputName();
    var cells := DirectChildren(inner, "td");
    if cells.Err? {
      return Err(Reported(cells.error));
    }
    if |cells.value| == 0 {
      return Ok(None);
    }
    var text := ElementText(LabelCell(cells.value).inner);
    if text.None? {
      return Err(Panicked);
    }
    var lists := Scan(inner, "ul");
    if lists.Err? {
      return Err(Reported(lists.error));
    }
    var name := FindScoreName(lists.value);
    if name.Err? {
      return Err(name.error);
    }
    if name.value.None? {
      return Ok(None);
    }
    var inputs := Scan(inner, "input");
    if inputs.Err? {
      return Err(Reported(inputs.error));
    }
    var sorted := ReadInputs(inputs.value, name.value.value);
    if sorted.Err? {
      return Err(sorted.error);
    }
    return Ok(Some(Question(text.value, MIN_SCORE, name.value.value, sorted.value.1, sorted.value.0)));
  }

  // ---------------------------------------------------------------- which rows are questions

  /** The question has this text and this score, and submits every other input once: as comment or as companion. */
  ghost predicate Submits(q: Question, text: string, scoreName: string, inputs: seq<RawElement>) {
    && q.text == text && q.scoreName == scoreName && q.score == MIN_SCORE
    && multiset(q.others) + (if q.suggestion.Some? then multiset{q.suggestion.value} else multiset{}) ==
         multiset(NotScore(Fields(inputs), scoreName))
    && q.others == FieldsBeside(inputs, scoreName, false)
  }

  lemma SortedSubmits(text: string, scoreName: string, inputs: seq<RawElement>)
    requires SortInputs(inputs, scoreName).Ok?
    ensures var sorted := SortInputs(inputs, scoreName).value;
            Submits(Question(text, MIN_SCORE, scoreName, sorted.1, sorted.0), text, scoreName, inputs)
  {
    hide AllCarryable, FieldsBeside, NotScore, Fields;
    InputsAreConserved(inputs, scoreName);
    var comments := FieldsBeside(inputs, scoreName, true);
    if |comments| == 1 {
      assert comments == [comments[0]];
    } else {
      assert comments == [];
    }
  }

  lemma QuestionOfExactly(text: string, lists: seq<RawElement>, inputs: seq<RawElement>)
    ensures var r, names := QuestionOf(text, lists, Ok(inputs)), AllNames(lists);
            && (r.Ok? && r.value.Some? <==>
                  AllRead(lists) && |names| == 1 && AllCarryable(inputs) && |FieldsBeside(inputs, names[0], true)| <= 1)
            && (r == Ok(None) <==> AllRead(lists) && |names| == 0)
            && (r.Ok? && r.value.Some? ==> Submits(r.value.value, text, names[0], inputs))
  {
    hide AllCarryable, ScoreNameFrom, AllNames, AllRead, FieldsBeside, Submits;
    ScoreNameExactly(lists, None);
    var names := AllNames(lists);
    assert [] + names == names;
    if |names| == 1 && SortInputs(inputs, names[0]).Ok? {
      SortedSubmits(text, names[0], inputs);
    }
  }

  /** The three scans of a row. */
  datatype Scans = Scans(cells: Elements, lists: Elements, inputs: Elements)

  function ScansOf(inner: string): Scans {
    InputName();
    Scans(ScanFrom(inner, "td", 0, "child element count"), ScanFrom(inner, "ul", 0, "element count"),
          ScanFrom(inner, "input", 0, "element count"))
  }

  /** The row has no cell. */
  predicate Cellless(row: Scans) {
    row.cells.Ok? && |row.cells.value| == 0
  }

  /** The row has a cell, and the text of its label can be decoded. */
  predicate Labelled(row: Scans) {
    row.cells.Ok? && |row.cells.value| > 0 && TextOf(LabelCell(row.cells.value).inner).Some?
  }

  /** The lists of the row can be read and hold this many named inputs. */
  predicate Scores(row: Scans, n: nat) {
    row.lists.Ok? && AllRead(row.lists.value) && |AllNames(row.lists.value)| == n
  }

  /** With one score: how many other inputs are comments. */
  function Comments(row: Scans): nat
    requires Scores(row, 1) && row.inputs.Ok?
  {
    |FieldsBeside(row.inputs.value, AllNames(row.lists.value)[0], true)|
  }

  predicate Whole(row: Scans) {
    row.inputs.Ok? && AllCarryable(row.inputs.value)
  }

  lemma RowQuestionIs(inner: string)
    ensures var row := ScansOf(inner);
            && (row.cells.Err? ==> RowQuestion(inner) == Err(Reported(row.cells.error)))
            && (Cellless(row) ==> RowQuestion(inner) == Ok(None))
            && (row.cells.Ok? && !Cellless(row) && !Labelled(row) ==> RowQuestion(inner) == Err(Panicked))
            && (Labelled(row) && row.lists.Err? ==> RowQuestion(inner) == Err(Reported(row.lists.error)))
            && (Labelled(row) && row.lists.Ok? ==>
                  RowQuestion(inner) ==
                    QuestionOf(TextOf(LabelCell(row.cells.value).inner).value, row.lists.value,
                               LiftElements(row.inputs)))
  {
    hide ScanFrom, TextOf, QuestionOf;
  }

  /** Without inputs that could be read there is no question, and the lists decide the rest. */
  lemma NoInputsExactly(text: string, lists: seq<RawElement>, error: QuestionError)
    ensures var r, names := QuestionOf(text, lists, Err(error)), AllNames(lists);
            && (r.Err? || r == Ok(None)) && (r == Ok(None) <==> AllRead(lists) && |names| == 0)
            && (AllRead(lists) && |names| == 1 ==> r == Err(error))
  {
    hide ScoreNameFrom, AllNames;
    ScoreNameExactly(lists, None);
    assert [] + AllNames(lists) == AllNames(lists);
  }

  /**
   A row is a question exactly when it has a cell, its lists hold one named input, everything
   it submits can be carried and at most one other input is a comment; and then it submits
   exactly its inputs. It is passed over exactly when it has no cell, or no named input in a list.
   */
  lemma QuestionExactly(inner: string)
    ensures var r, row := RowQuestion(inner), ScansOf(inner);
            && (r.Ok? && r.value.Some? <==> Labelled(row) && Scores(row, 1) && Whole(row) && Comments(row) <= 1)
            && (r == Ok(None) <==> Cellless(row) || (Labelled(row) && Scores(row, 0)))
            && (r.Ok? && r.value.Some? ==>
                  Submits(r.value.value, TextOf(LabelCell(row.cells.value).inner).value,
                          AllNames(row.lists.value)[0], row.inputs.value))
  {
    hide ScansOf, RowQuestion, QuestionOf, TextOf, AllNames, AllRead, AllCarryable, FieldsBeside, Submits;
    RowQuestionIs(inner);
    var row := ScansOf(inner);
    if Labelled(row) && row.lists.Ok? {
      var text, lists := TextOf(LabelCell(row.cells.value).inner).value, row.lists.value;
      match row.inputs
      case Ok(inputs) => QuestionOfExactly(text, lists, inputs);
      case Err(error) => NoInputsExactly(text, lists, Reported(error));
    }
  }

  // ---------------------------------------------------------------- which rows are reported

  /** Reading list `k` panics, and nothing before it ends the loop. */
  ghost predicate ListPanics(lists: seq<RawElement>, before: nat, k: nat) {
    && k < |lists| && ListInputs(lists[k]) == Err(SplitCharacter)
    && AllRead(lists[..k]) && |AllNames(lists[..k])| + before <= 1
  }

  lemma FirstListPanics(lists: seq<RawElement>, before: nat)
    requires |lists| > 0 && before <= 1
    ensures ListPanics(lists, before, 0) <==> ListInputs(lists[0]) == Err(SplitCharacter)
  {
    hide ListInputs;
    assert lists[..0] == [];
  }

  lemma LaterListPanics(lists: seq<RawElement>, before: nat, k: nat)
    requires 0 < k && |lists| > 0 && before <= 1
    ensures ListPanics(lists, before, k) <==>
            && ListInputs(lists[0]).Ok? && |NamesOf(ListInputs(lists[0]).value)| + before <= 1
            && ListPanics(lists[1..], |NamesOf(ListInputs(lists[0]).value)| + before, k - 1)
  {
    hide ListInputs, NamesOf;
    if k < |lists| {
      var front, rest := lists[..k], lists[1..][..k - 1];
      assert front == [lists[0]] + rest && front[1..] == rest && lists[1..][k - 1] == lists[k];
      assert AllRead(front) <==> ListInputs(lists[0]).Ok? && AllRead(rest) by {
        assert forall i | 0 < i < |front| :: front[i] == rest[i - 1];
      }
    }
  }

  lemma {:induction false} ScoreNamePanicsExactly(lists: seq<RawElement>, found: Option<string>)
    ensures var before := if found.Some? then 1 else 0;
            ScoreNameFrom(lists, found) == Err(Panicked) <==> exists k: nat :: ListPanics(lists, before, k)
  {
    hide ListInputs, NamesOf, ListPanics;
    var before := if found.Some? then 1 else 0;
    if |lists| == 0 {
      NoListPanics(lists, before);
    } else {
      FirstListPanics(lists, before);
      forall k: nat | 0 < k
        ensures ListPanics(lists, before, k) <==>
                && ListInputs(lists[0]).Ok? && |NamesOf(ListInputs(lists[0]).value)| + before <= 1
                && ListPanics(lists[1..], |NamesOf(ListInputs(lists[0]).value)| + before, k - 1)
      {
        LaterListPanics(lists, before, k);
      }
      var inputs := ListInputs(lists[0]);
      if inputs.Ok? && |NamesOf(inputs.value)| + before <= 1 {
        var names := NamesOf(inputs.value);
        ScoreNamePanicsExactly(lists[1..], if |names| == 1 then Some(names[0]) else found);
        var rest, taken := lists[1..], |names| + before;
        if k: nat :| ListPanics(rest, taken, k) {
          assert ListPanics(lists, before, k + 1);
        }
      }
    }
  }

  lemma NoListPanics(lists: seq<RawElement>, before: nat)
    requires |lists| == 0
    ensures forall k: nat :: !ListPanics(lists, before, k)
  {
  }

  /** Where the source panics: at the cells, the label, the lists, one list's inputs, or the inputs of a scored row. */
  ghost predicate RowPanics(row: Scans) {
    || row.cells == Err(SplitCharacter)
    || (row.cells.Ok? && !Cellless(row) && !Labelled(row))
    || (Labelled(row) && row.lists == Err(SplitCharacter))
    || (Labelled(row) && row.lists.Ok? && exists k: nat :: ListPanics(row.lists.value, 0, k))
    || (Labelled(row) && Scores(row, 1) && row.inputs == Err(SplitCharacter))
  }

  lemma QuestionOfPanics(text: string, lists: seq<RawElement>, inputs: Elements)
    ensures QuestionOf(text, lists, LiftElements(inputs)) == Err(Panicked) <==>
            || (exists k: nat :: ListPanics(lists, 0, k))
            || (AllRead(lists) && |AllNames(lists)| == 1 && inputs == Err(SplitCharacter))
  {
    hide ScoreNameFrom, ListPanics, AllNames, AllRead, AllCarryable, FieldsBeside;
    ScoreNamePanicsExactly(lists, None);
    ScoreNameExactly(lists, None);
    assert [] + AllNames(lists) == AllNames(lists);
  }

  lemma RowPanicsExactly(inner: string)
    ensures RowQuestion(inner) == Err(Panicked) <==> RowPanics(ScansOf(inner))
  {
    hide ScansOf, RowQuestion, QuestionOf, TextOf, AllNames, AllRead, ListPanics;
    RowQuestionIs(inner);
    var row := ScansOf(inner);
    if Labelled(row) && row.lists.Ok? {
      QuestionOfPanics(TextOf(LabelCell(row.cells.value).inner).value, row.lists.value, row.inputs);
    }
  }

  /** The row has exactly one score and exactly one comment. */
  predicate OneOfEach(row: Scans) {
    Scores(row, 1) && row.inputs.Ok? && Comments(row) == 1
  }

  /**
   The source's comment calls every row unreadable that does not have exactly one score and
   one comment. A row that does not is reported exactly unless it has no cell, its lists hold
   no named input, it has one score, nothing it cannot carry and no comment, or the source panics.
   */
  lemma UnreadableExactly(inner: string)
    ensures var r, row := RowQuestion(inner), ScansOf(inner);
            !OneOfEach(row) ==>
              (r.Err? && r.error != Panicked <==>
                && !Cellless(row)
                && !(Labelled(row) && Scores(row, 0))
                && !(Labelled(row) && Scores(row, 1) && Whole(row) && Comments(row) == 0)
                && !RowPanics(row))
  {
    hide ScansOf, RowQuestion, TextOf, AllNames, AllRead, AllCarryable, FieldsBeside, RowPanics, Submits;
    QuestionExactly(inner);
    RowPanicsExactly(inner);
  }

  // ---------------------------------------------------------------- the overall score

  /** `parse_score`. */
  function ParseScore(value: string): Option<nat> {
    var trimmed := Trim(value);
    if trimmed == "" || exists i :: 0 <= i < |trimmed| && !('0' <= trimmed[i] <= '9') then None
    else ParseUnsigned(trimmed, 10, U32_LIMIT)
  }

  lemma TrimOfDigits(s: string)
    requires s != "" && forall c | c in s :: '0' <= c <= '9'
    ensures Trim(s) == s && forall i | 0 <= i < |s| :: '0' <= s[i] <= '9'
  {
    assert forall i | 0 <= i < |s| :: s[i] in s;
    assert !IsWhitespace(s[0]) && !IsWhitespace(s[|s| - 1]);
  }

  predicate AllZeros(s: string) {
    forall i | 0 <= i < |s| :: s[i] == '0'
  }

  /** Zeros, then one digit from 1 to 7. */
  predicate SmallNumeral(s: string) {
    |s| > 0 && '1' <= s[|s| - 1] <= '7' && AllZeros(s[..|s| - 1])
  }

  lemma {:induction false} ZeroValue(s: string)
    ensures DigitsValue(s, 10) == Some(0) <==> AllZeros(s)
    decreases |s|
  {
    if s != "" {
      var high := s[..|s| - 1];
      ZeroValue(high);
      assert AllZeros(s) <==> AllZeros(high) && s[|s| - 1] == '0';
    }
  }

  lemma SmallValue(s: string)
    requires s != ""
    ensures DigitsValue(s, 10).Some? && InRange(DigitsValue(s, 10).value) <==> SmallNumeral(s)
  {
    var high, last := s[..|s| - 1], s[|s| - 1];
    ZeroValue(high);
    var value := DigitsValue(high, 10);
    if value.Some? && value.value > 0 {
      assert value.value * 10 >= 10;
    }
  }

  /** The score read from the page is in the range a caller must keep exactly for these texts. */
  lemma ScoreInRangeExactly(value: string)
    ensures ParseScore(value).Some? && InRange(ParseScore(value).value) <==> SmallNumeral(Trim(value))
  {
    hide DigitsValue, SmallNumeral, Trim;
    var trimmed := Trim(value);
    if trimmed != "" {
      SmallValue(trimmed);
      SmallIsDigits(trimmed);
    }
    NothingIsSmall();
  }

  lemma SmallIsDigits(s: string)
    ensures SmallNumeral(s) ==> forall i | 0 <= i < |s| :: '0' <= s[i] <= '9'
  {
  }

  lemma NothingIsSmall()
    ensures !SmallNumeral("")
  {
  }

  /** Every 32-bit number is read as a score: the page's own score need not lie in the range a caller must keep. */
  lemma ScoreIsNotRangeChecked(n: nat)
    requires n < U32_LIMIT
    ensures ParseScore(Decimal(n)) == Some(n)
    ensures ParseScore(Decimal(8)) == Some(8) && !InRange(8)
  {
    hide ParseUnsigned, Trim, Decimal;
    ParseOfDecimal(n, U32_LIMIT);
    ParseOfDecimal(8, U32_LIMIT);
    TrimOfDigits(Decimal(n));
    TrimOfDigits(Decimal(8));
  }
}
