/** Two question rows that the source's comment calls unreadable, and what becomes of them. */
module AssessmentRows {
  import opened Wrappers
  import opened Text
  import opened HtmlAttributes
  import opened HtmlEntities
  import opened HtmlTags
  import opened HtmlElements
  import opened HtmlForest
  import opened HtmlRoundTrip
  import opened HtmlNesting
  import opened HtmlText
  import opened AssessmentValues
  import opened AssessmentQuestions
  import Utf8

  const NAME: Spelled := Spelled("name", "s", Double, " ", "", "")
  const INPUT: Node := Element("input", Plain("input"), [NAME], [])
  const LIST: Node := Element("ul", Plain("ul"), [], [INPUT])
  /** A cell and no score. */
  const UNSCORED: seq<Node> := [CELL]
  /** A cell and a score, and no comment. */
  const SCORED: seq<Node> := [CELL, LIST]
  const INPUTS: seq<Node> := [INPUT, INPUT]
  const PAIR: Node := Element("ul", Plain("ul"), [], INPUTS)
  /** Two scores, and no cell. */
  const CELLLESS: seq<Node> := [PAIR]

  lemma PrintedInput()
    ensures PrintNode(INPUT) == "<input name=\"s\">" && Print([INPUT]) == PrintNode(INPUT)
  {
    var attrs := [NAME];
    assert attrs[1..] == [] && PrintAttributes([]) == "";
    assert PrintTail(NAME) == "=\"s\"" && PrintAttribute(NAME) == " name=\"s\"";
    assert PrintAttributes(attrs) == " name=\"s\"";
    assert IsVoid("input") && PrintNode(INPUT) == StartTag(Plain("input"), attrs);
    assert [INPUT][1..] == [] && Print([]) == "";
  }

  lemma ListTags()
    ensures StartTag(Plain("ul"), []) == "<ul>" && CloseTag(Plain("ul")) == "</ul>" && !IsVoid("ul")
  {
    assert PrintAttributes([]) == "";
  }

  lemma PrintedList()
    ensures PrintNode(LIST) == "<ul><input name=\"s\"></ul>"
  {
    hide Print, StartTag, CloseTag, IsVoid;
    PrintedInput();
    ListTags();
    assert PrintNode(LIST) == "<ul>" + (Print([INPUT]) + "</ul>");
  }

  lemma RowsArePrintable()
    ensures Printable(UNSCORED) && Printable(SCORED) && Printable([INPUT])
  {
    InputName();
    CellsArePrintable();
    PlainSpells("input");
    PlainSpells("ul");
    assert TagAttribute(NAME) && TagAttributes([]) && TagAttributes([NAME]);
    assert Printable([]) && PrintableNode(CELL) && PrintableNode(INPUT) && Printable([INPUT]);
    assert PrintableNode(LIST) && Printable([LIST]);
  }

  lemma OneLetter()
    ensures Collapsed("s") == "s" && Decoded("s") == Some("s")
  {
    WordsOfWord("s");
    assert Join(["s"], ' ') == "s";
    DecodeNothing();
    DecodedPlain("s", "");
    assert "s" + "" == "s";
  }

  lemma NameIsRead()
    ensures NormalizedAttributes([("name", "s")]) == Some([("name", "s")])
    ensures AttributesAligned([("name", "s")])
  {
    hide Collapsed, Decoded, WindowsAligned, AttributesAligned;
    OneLetter();
    var attrs := [("name", "s")];
    assert NormalizedAttributes([]) == Some([]);
    assert attrs[1..] == [] && Normalized(attrs[0].1) == Some("s") && Lower(attrs[0].0) == "name";
    assert NormalizedAttributes(attrs) == Some([("name", "s")] + []);
    assert [("name", "s")] + [] == attrs;
    NormalizedExactly(attrs);
  }

  lemma RowsAreReadable()
    ensures Readable(CELL) && Readable(INPUT) && Readable(LIST)
  {
    hide PrintNode, Utf8.Len, AttributesAligned;
    PrintedCells();
    PrintedInput();
    PrintedList();
    SmallNode(CELL);
    SmallNode(LIST);
    NameIsRead();
    LenOfAscii(PrintNode(INPUT));
  }

  lemma OutermostInRows()
    ensures Outermost(UNSCORED, "td") == [CELL] && Outermost(UNSCORED, "ul") == []
    ensures Outermost(SCORED, "td") == [CELL] && Outermost(SCORED, "ul") == [LIST]
    ensures Outermost(SCORED, "input") == [INPUT] && Outermost([INPUT], "input") == [INPUT]
  {
    assert Outermost([], "td") == [] && Outermost([], "ul") == [] && Outermost([], "input") == [];
    assert OutermostIn(CELL, "td") == [CELL] && OutermostIn(CELL, "ul") == [] && OutermostIn(CELL, "input") == [];
    assert OutermostIn(INPUT, "input") == [INPUT] && Outermost([INPUT], "input") == [INPUT];
    assert Outermost([INPUT], "td") == [];
    assert OutermostIn(LIST, "td") == [] && OutermostIn(LIST, "ul") == [LIST] && OutermostIn(LIST, "input") == [INPUT];
    assert Outermost([LIST], "td") == [] && Outermost([LIST], "ul") == [LIST] && Outermost([LIST], "input") == [INPUT];
  }

  /** A scan of a printed row that finds these few nodes of it. */
  lemma ScanOfRow(row: seq<Node>, name: string, found: seq<Node>, context: string)
    requires IsTagName(name) && Printable(row) && Outermost(row, name) == found && |found| <= 2
    requires forall node | node in found :: Readable(node)
    ensures Returns(ScanFrom(Print(row), name, 0, context), found)
    ensures forall i | 0 <= i < |found| && found[i] == INPUT ::
        ScanFrom(Print(row), name, 0, context).value[i].attrs == [("name", "s")]
  {
    hide Readable, IsTagName, Printable, ScanFrom, Outermost, NormalizedAttributes, AttributesAligned,
        HtmlForest.Scanned;
    ScanReturnsOutermost(row, name, context);
    forall node | node in found
      ensures node.Element? && HtmlForest.Scanned(node).Ok?
    {
      ReadableIsElement(node);
      ScannedExactly(node);
    }
    NameIsRead();
    assert Pairs(INPUT.attrs) == [("name", "s")];
    ScanReadsBack(row, name, context);
  }

  lemma EmptyCell()
    ensures Print(CELL.children) == "" && TextOf("") == Some("")
  {
    NoWords();
    DecodeNothing();
    NoText("", "");
  }

  /** A row without a score is skipped, not refused. */
  lemma RowWithoutScoreIsSkipped()
    ensures RowQuestion(Print(UNSCORED)) == Ok(None)
  {
    hide ScanFrom, Outermost, Readable, Printable, TextOf;
    InputName();
    EmptyCell();
    RowsArePrintable();
    RowsAreReadable();
    OutermostInRows();
    ScanOfRow(UNSCORED, "td", [CELL], "child element count");
    ScanOfRow(UNSCORED, "ul", [], "element count");
    var cells := ScanFrom(Print(UNSCORED), "td", 0, "child element count").value;
    var lists := ScanFrom(Print(UNSCORED), "ul", 0, "element count").value;
    assert |cells| == 1 && |lists| == 0;
  }

  /** What one input that is only named means for a row. */
  lemma NamedOnly(input: RawElement)
    requires input.attrs == [("name", "s")]
    ensures Takes(input) && NameOf(input) == "s" && !Classed(input)
    ensures FieldOf(input) == Field("s", "") && Carryable(FieldOf(input))
    ensures NamesOf([input]) == ["s"] && AllCarryable([input])
    ensures forall classed :: FieldsBeside([input], "s", classed) == []
  {
    assert input.attrs[1..] == [];
    assert FirstValue([], "type") == None && FirstValue([], "class") == None && FirstValue([], "value") == None;
    assert input.Attr("name") == Some("s") && input.Attr("type") == None;
    assert input.Attr("class") == None && input.Attr("value") == None;
    LenOfAscii("s");
    LenOfAscii("");
    assert [input][..0] == [] && NamesOf([]) == [];
    assert forall classed :: FieldsBeside([], "s", classed) == [];
  }

  /** A row without a comment is a question without one. */
  lemma RowWithoutCommentIsAccepted()
    ensures var r := RowQuestion(Print(SCORED));
            r.Ok? && r.value.Some? && r.value.value.scoreName == "s"
            && r.value.value.suggestion == None && r.value.value.others == []
  {
    hide ScanFrom, Outermost, Readable, Printable, NamesOf, AllCarryable, FieldsBeside, TextOf;
    InputName();
    EmptyCell();
    RowsArePrintable();
    RowsAreReadable();
    OutermostInRows();
    ScanOfRow(SCORED, "td", [CELL], "child element count");
    ScanOfRow(SCORED, "ul", [LIST], "element count");
    ScanOfRow(SCORED, "input", [INPUT], "element count");
    ScanOfRow([INPUT], "input", [INPUT], "child element count");
    var cells := ScanFrom(Print(SCORED), "td", 0, "child element count").value;
    var lists := ScanFrom(Print(SCORED), "ul", 0, "element count").value;
    var inputs := ScanFrom(Print(SCORED), "input", 0, "element count").value;
    assert lists == [lists[0]] && lists[0].inner == Print([INPUT]) && lists[1..] == [];
    var listed := ListInputs(lists[0]).value;
    assert listed == [listed[0]] && inputs == [inputs[0]];
    NamedOnly(listed[0]);
    NamedOnly(inputs[0]);
    assert ScoreNameFrom(lists, None) == Ok(Some("s"));
  }

  lemma PrintedAround(list: Node)
    requires list.Element? && list.name == "ul" && list.tag == Plain("ul") && list.attrs == []
    ensures PrintNode(list) == StartTag(list.tag, []) + (Print(list.children) + CloseTag(list.tag))
  {
    hide Print, StartTag, CloseTag;
    ListTags();
  }

  lemma AsciiConcat(a: string, b: string)
    requires IsAsciiText(a) && IsAsciiText(b)
    ensures IsAsciiText(a + b) && |a + b| == |a| + |b|
  {
  }

  lemma AsciiPieces()
    ensures IsAsciiText("<ul>") && IsAsciiText("</ul>") && IsAsciiText("<input name=\"s\">")
  {
  }

  lemma PairIsSmall()
    ensures IsAsciiText(PrintNode(PAIR)) && |PrintNode(PAIR)| <= 100
  {
    hide PrintNode, StartTag, CloseTag, IsVoid, IsAsciiText;
    PrintedInput();
    ListTags();
    PrintedAround(PAIR);
    assert INPUTS[0] == INPUT && INPUTS[1..] == [INPUT];
    var input, inner := PrintNode(INPUT), Print(INPUTS);
    assert inner == input + input;
    AsciiPieces();
    AsciiConcat(input, input);
    AsciiConcat(inner, "</ul>");
    AsciiConcat("<ul>", inner + "</ul>");
  }

  lemma PairIsReadable()
    ensures Printable(CELLLESS) && Printable(INPUTS) && Readable(PAIR)
  {
    hide PrintNode, Utf8.Len, AttributesAligned;
    InputName();
    RowsArePrintable();
    PlainSpells("ul");
    PairIsSmall();
    SmallNode(PAIR);
    assert INPUTS[1..] == [INPUT] && TagAttributes([]);
    assert PrintableNode(INPUT) && Printable(INPUTS);
    assert PrintableNode(PAIR);
  }

  lemma OutermostInPair()
    ensures Outermost(CELLLESS, "td") == [] && Outermost(CELLLESS, "ul") == [PAIR]
    ensures Outermost(INPUTS, "input") == INPUTS
  {
    assert Outermost([], "td") == [] && Outermost([], "ul") == [] && Outermost([], "input") == [];
    assert INPUTS[1..] == [INPUT] && OutermostIn(INPUT, "input") == [INPUT] && OutermostIn(INPUT, "td") == [];
    assert Outermost([INPUT], "input") == [INPUT] && Outermost([INPUT], "td") == [];
    assert Outermost(INPUTS, "td") == [] && OutermostIn(PAIR, "td") == [] && OutermostIn(PAIR, "ul") == [PAIR];
  }

  lemma TwoNames(inputs: seq<RawElement>)
    requires |inputs| == 2 && forall i | 0 <= i < 2 :: inputs[i].attrs == [("name", "s")]
    ensures |NamesOf(inputs)| == 2
  {
    NamedOnly(inputs[0]);
    NamedOnly(inputs[1]);
    assert inputs[..1] == [inputs[0]];
  }

  /** A row without a cell is skipped, although its list holds two scores. */
  lemma RowWithoutCellsIsSkipped()
    ensures RowQuestion(Print(CELLLESS)) == Ok(None) && Scores(ScansOf(Print(CELLLESS)), 2)
  {
    hide ScanFrom, Outermost, Readable, Printable, TextOf, NamesOf;
    InputName();
    PairIsReadable();
    RowsAreReadable();
    OutermostInPair();
    ScanOfRow(CELLLESS, "td", [], "child element count");
    ScanOfRow(CELLLESS, "ul", [PAIR], "element count");
    ScanOfRow(INPUTS, "input", INPUTS, "child element count");
    var lists := ScanFrom(Print(CELLLESS), "ul", 0, "element count").value;
    assert lists == [lists[0]] && lists[0].inner == Print(INPUTS) && lists[1..] == [];
    TwoNames(ListInputs(lists[0]).value);
    assert AllNames([]) == [];
  }
}
