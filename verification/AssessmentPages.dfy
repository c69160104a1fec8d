/**
 A question row from its HTML: the row as the service renders it, printed, is read back as
 its question, with the right label, score name, comment and companion values.
 */
module AssessmentPages {
  import opened Wrappers
  import opened Text
  import opened HtmlAttributes
  import opened HtmlEntities
  import opened HtmlTags
  import opened HtmlElements
  import opened HtmlForest
  import opened HtmlRoundTrip
  import opened HtmlNesting
  import opened HtmlEscaping
  import opened HtmlText
  import opened AssessmentValues
  import opened AssessmentQuestions

  // ---------------------------------------------------------------- the rendered row

  /** An input of a row, with or without a type, a class and a value. */
  datatype Item = Item(kind: Option<string>, class': Option<string>, name: string, value: Option<string>)

  /** The score stands in a list of its own, before the other inputs. */
  datatype Row = Row(cells: seq<seq<Node>>, score: Item, others: seq<Item>)
  {
    function Items(): seq<Item> {
      [score] + others
    }
  }

  function Attr(key: string, value: string): Spelled {
    Spelled(key, value, Double, " ", "", "")
  }

  function Optional(key: string, value: Option<string>): seq<Spelled> {
    if value.Some? then [Attr(key, value.value)] else []
  }

  function ItemAttributes(item: Item): seq<Spelled> {
    Optional("type", item.kind) + (Optional("class", item.class') +
      (Optional("name", Some(item.name)) + (Optional("value", item.value) + [])))
  }

  function ItemNode(item: Item): Node {
    Element("input", Plain("input"), ItemAttributes(item), [])
  }

  function ItemNodes(items: seq<Item>): (nodes: seq<Node>)
    ensures |nodes| == |items| && forall i | 0 <= i < |items| :: nodes[i] == ItemNode(items[i])
  {
    seq(|items|, i requires 0 <= i < |items| => ItemNode(items[i]))
  }

  function CellsOf(cells: seq<seq<Node>>): (nodes: seq<Node>)
    ensures |nodes| == |cells|
    ensures forall i | 0 <= i < |cells| :: nodes[i] == Element("td", Plain("td"), [], cells[i])
  {
    seq(|cells|, i requires 0 <= i < |cells| => Element("td", Plain("td"), [], cells[i]))
  }

  function ListNode(score: Item): Node {
    Element("ul", Plain("ul"), [], [ItemNode(score)])
  }

  function RowNodes(row: Row): seq<Node> {
    CellsOf(row.cells) + [ListNode(row.score)] + ItemNodes(row.others)
  }

  // ---------------------------------------------------------------- the question it is

  /** Names and values come back collapsed; an absent value is empty. */
  function ReadField(item: Item): Field {
    Field(Collapsed(item.name), if item.value.Some? then Collapsed(item.value.value) else "")
  }

  /** The type is that of a button, in any case and with any white space around it. */
  predicate IsButton(item: Item) {
    item.kind.Some? && Lower(Collapsed(item.kind.value)) in {"button", "submit", "reset", "image", "file"}
  }

  predicate IsSubmitted(item: Item) {
    Collapsed(item.name) != "" && !IsButton(item)
  }

  /** The input has a class that is not blank. */
  predicate IsRemark(item: Item) {
    item.class'.Some? && Collapsed(item.class'.value) != ""
  }

  /** The submitted fields under other names than the score's, in order: the comments or the companions. */
  function Beside(items: seq<Item>, scoreName: string, remarks: bool): seq<Field> {
    if |items| == 0 then []
    else
      var last := items[|items| - 1];
      Beside(items[..|items| - 1], scoreName, remarks) +
        if IsSubmitted(last) && Collapsed(last.name) != scoreName && IsRemark(last) == remarks
        then [ReadField(last)] else []
  }

  predicate AllSubmittable(items: seq<Item>) {
    forall i | 0 <= i < |items| && IsSubmitted(items[i]) :: Carryable(ReadField(items[i]))
  }

  /** The label is the second of four cells, and otherwise the first. */
  function LabelOf(cells: seq<seq<Node>>): string
    requires |cells| > 0
  {
    Collapsed(FlatForest(if |cells| == 4 then cells[1] else cells[0]))
  }

  // ---------------------------------------------------------------- which rows

  /** The row has a cell, and its cells hold text and markup only. */
  predicate SoundRow(row: Row) {
    && |row.cells| > 0
    && forall i | 0 <= i < |row.cells| ::
         && Outermost(row.cells[i], "td") == [] && Outermost(row.cells[i], "ul") == []
         && Outermost(row.cells[i], "input") == []
  }

  // ---------------------------------------------------------------- what an input reads as

  lemma {:induction false} JoinedIsTrimmed(words: seq<string>)
    requires forall w | w in words :: IsWord(w)
    ensures IsTrimmed(Join(words, ' ')) && (|words| > 0 ==> |Join(words, ' ')| > 0)
  {
    hide IsWhitespace;
    if |words| > 0 {
      assert words[0] in words;
      JoinedIsTrimmed(words[1..]);
    }
  }

  lemma CollapsedIsTrimmed(s: string)
    ensures Trim(Collapsed(s)) == Collapsed(s)
  {
    hide Words, Trim, IsTrimmed, IsWord, IsWhitespace;
    WordsAreWords(s);
    JoinedIsTrimmed(Words(s));
    TrimInside("", Collapsed(s), "");
    assert "" + Collapsed(s) + "" == Collapsed(s);
  }

  /** The attributes as read, those of a first key in front. */
  lemma ReadOptional(key: string, value: Option<string>, rest: seq<Spelled>, wanted: string)
    requires Lower(key) == key
    ensures FirstValue(ReadAttributes(Optional(key, value) + rest), wanted) ==
            if key == wanted && value.Some? then Some(Collapsed(value.value))
            else FirstValue(ReadAttributes(rest), wanted)
  {
    hide Collapsed, Lower;
    if value.Some? {
      var attr := Attr(key, value.value);
      assert ([attr] + rest)[1..] == rest;
      assert ReadAttributes([attr] + rest) == [(key, Collapsed(value.value))] + ReadAttributes(rest);
      assert ([(key, Collapsed(value.value))] + ReadAttributes(rest))[1..] == ReadAttributes(rest);
    } else {
      assert [] + rest == rest;
    }
  }

  lemma LowerIsItself()
    ensures Lower("type") == "type" && Lower("class") == "class" && Lower("name") == "name" && Lower("value") == "value"
  {
  }

  function CollapsedOption(value: Option<string>): Option<string> {
    if value.Some? then Some(Collapsed(value.value)) else None
  }

  /** What looking an attribute of the printed input up gives. */
  lemma LookUp(item: Item, wanted: string)
    ensures FirstValue(ReadAttributes(ItemAttributes(item)), wanted) ==
            if wanted == "type" then CollapsedOption(item.kind)
            else if wanted == "class" then CollapsedOption(item.class')
            else if wanted == "name" then Some(Collapsed(item.name))
            else if wanted == "value" then CollapsedOption(item.value)
            else None
  {
    hide FirstValue, ReadAttributes, Collapsed, Lower, Optional;
    LowerIsItself();
    NothingFound(wanted);
    ReadOptional("value", item.value, [], wanted);
    var value := Optional("value", item.value) + [];
    ReadOptional("name", Some(item.name), value, wanted);
    var name := Optional("name", Some(item.name)) + value;
    ReadOptional("class", item.class', name, wanted);
    ReadOptional("type", item.kind, Optional("class", item.class') + name, wanted);
  }

  lemma NothingFound(wanted: string)
    ensures FirstValue(ReadAttributes([]), wanted) == None
  {
  }

  /** How a printed input takes part, and with which field. */
  lemma ItemReads(input: RawElement, item: Item)
    requires input.attrs == ReadAttributes(ItemNode(item).attrs)
    ensures AssessmentQuestions.Named(input) <==> Collapsed(item.name) != ""
    ensures NameOf(input) == Collapsed(item.name)
    ensures Takes(input) <==> IsSubmitted(item)
    ensures Takes(input) ==> FieldOf(input) == ReadField(item)
    ensures Classed(input) <==> IsRemark(item)
  {
    hide FirstValue, ReadAttributes, Collapsed, Lower, Trim, ItemAttributes;
    LookUp(item, "type");
    LookUp(item, "class");
    LookUp(item, "name");
    LookUp(item, "value");
    if item.kind.Some? {
      CollapsedIsTrimmed(item.kind.value);
    }
    if item.class'.Some? {
      CollapsedIsTrimmed(item.class'.value);
    }
  }

  /** The inputs of a row are its items, printed and read. */
  ghost predicate InputsAre(inputs: seq<RawElement>, items: seq<Item>) {
    && |inputs| == |items|
    && forall i | 0 <= i < |items| :: inputs[i].attrs == ReadAttributes(ItemNode(items[i]).attrs)
  }

  /** Sorting the inputs gives the companions and the comments, in order. */
  lemma {:induction false} InputsSort(inputs: seq<RawElement>, scoreName: string, items: seq<Item>)
    requires InputsAre(inputs, items)
    ensures AllCarryable(inputs) <==> AllSubmittable(items)
    ensures forall remarks :: FieldsBeside(inputs, scoreName, remarks) == Beside(items, scoreName, remarks)
    decreases |items|
  {
    hide Collapsed, Takes, Classed, ItemNode, ReadAttributes, Carryable, AllCarryable, AllSubmittable, IsSubmitted,
        IsRemark, FieldsBeside;
    var n := |items|;
    if n == 0 {
      NothingSorted(inputs, scoreName, items);
    } else {
      var front := items[..n - 1];
      InputsPrefix(inputs, items);
      InputsSort(inputs[..n - 1], scoreName, front);
      ItemReads(inputs[n - 1], items[n - 1]);
      TakenIsNamed(inputs[n - 1]);
      FieldsSnoc(inputs, scoreName, n - 1);
      assert inputs[..n] == inputs && items == front + [items[n - 1]];
      SubmittableSnoc(front, items[n - 1]);
    }
  }

  lemma SubmittableSnoc(front: seq<Item>, last: Item)
    ensures AllSubmittable(front + [last]) <==>
            AllSubmittable(front) && (IsSubmitted(last) ==> Carryable(ReadField(last)))
  {
    hide Carryable, IsSubmitted, ReadField;
    var all := front + [last];
    assert all[|front|] == last;
    assert forall i | 0 <= i < |front| :: all[i] == front[i];
  }

  lemma NothingSorted(inputs: seq<RawElement>, name: string, items: seq<Item>)
    requires |inputs| == |items| == 0
    ensures AllCarryable(inputs) && AllSubmittable(items)
    ensures forall remarks :: FieldsBeside(inputs, name, remarks) == [] && Beside(items, name, remarks) == []
  {
  }

  lemma InputsPrefix(inputs: seq<RawElement>, items: seq<Item>)
    requires InputsAre(inputs, items) && |items| > 0
    ensures InputsAre(inputs[..|items| - 1], items[..|items| - 1])
  {
    hide ItemNode, ReadAttributes;
  }

  // ---------------------------------------------------------------- what the scans find

  lemma OutermostCons(forest: seq<Node>, name: string)
    requires |forest| > 0
    ensures Outermost(forest, name) == OutermostIn(forest[0], name) + Outermost(forest[1..], name)
  {
  }

  lemma {:induction false} OutermostConcat(a: seq<Node>, b: seq<Node>, name: string)
    ensures Outermost(a + b, name) == Outermost(a, name) + Outermost(b, name)
  {
    hide Outermost, OutermostIn;
    if |a| == 0 {
      NoOutermost(a, name);
      assert a + b == b;
    } else {
      OutermostConcat(a[1..], b, name);
      assert (a + b)[1..] == a[1..] + b;
      OutermostCons(a, name);
      OutermostCons(a + b, name);
    }
  }

  lemma NoOutermost(forest: seq<Node>, name: string)
    requires |forest| == 0
    ensures Outermost(forest, name) == []
  {
  }

  lemma {:induction false} OutermostOfCells(cells: seq<seq<Node>>, name: string)
    requires name == "td" || forall i | 0 <= i < |cells| :: Outermost(cells[i], name) == []
    ensures Outermost(CellsOf(cells), name) == if name == "td" then CellsOf(cells) else []
  {
    hide Outermost;
    var nodes := CellsOf(cells);
    if |cells| == 0 {
      NoOutermost(nodes, name);
    } else {
      OutermostOfCells(cells[1..], name);
      OutermostCons(nodes, name);
      assert nodes[1..] == CellsOf(cells[1..]);
      assert OutermostIn(nodes[0], name) == if name == "td" then [nodes[0]] else [];
    }
  }

  lemma {:induction false} OutermostOfItems(items: seq<Item>, name: string)
    requires name == "td" || name == "ul" || name == "input"
    ensures Outermost(ItemNodes(items), name) == if name == "input" then ItemNodes(items) else []
  {
    hide Outermost;
    var nodes := ItemNodes(items);
    if |items| == 0 {
      NoOutermost(nodes, name);
    } else {
      OutermostOfItems(items[1..], name);
      OutermostCons(nodes, name);
      assert nodes[1..] == ItemNodes(items[1..]);
      InputIsOutermost(ItemNode(items[0]), name);
    }
  }

  lemma InputIsOutermost(input: Node, name: string)
    requires input.Element? && input.name == "input" && input.children == []
    ensures OutermostIn(input, name) == if name == "input" then [input] else []
    ensures Outermost([input], name) == if name == "input" then [input] else []
  {
    assert [input][1..] == [];
  }

  lemma OutermostOfList(score: Item, name: string)
    requires name == "td" || name == "ul" || name == "input"
    ensures Outermost([ListNode(score)], name) ==
            if name == "ul" then [ListNode(score)] else if name == "input" then [ItemNode(score)] else []
  {
    var list := ListNode(score);
    InputIsOutermost(ItemNode(score), name);
    assert [list][1..] == [];
  }

  lemma OutermostOfRow(row: Row, name: string)
    requires SoundRow(row) && (name == "td" || name == "ul" || name == "input")
    ensures Outermost(RowNodes(row), name) ==
            if name == "td" then CellsOf(row.cells)
            else if name == "ul" then [ListNode(row.score)]
            else ItemNodes(row.Items())
  {
    hide Outermost, ItemNode;
    OutermostOfCells(row.cells, name);
    OutermostOfList(row.score, name);
    OutermostOfItems(row.others, name);
    assert ItemNodes(row.Items()) == [ItemNode(row.score)] + ItemNodes(row.others);
    OutermostConcat(CellsOf(row.cells), [ListNode(row.score)], name);
    OutermostConcat(CellsOf(row.cells) + [ListNode(row.score)], ItemNodes(row.others), name);
  }

  /** The printed row stays within the limits of the scanner, and its label can be decoded. */
  ghost predicate RowWithin(row: Row)
    requires |row.cells| > 0
  {
    var nodes := RowNodes(row);
    && HtmlEscaping.Named(nodes) && |row.cells| <= MAX_ELEMENTS && |row.Items()| <= MAX_ELEMENTS
    && (forall node | node in CellsOf(row.cells) + [ListNode(row.score)] :: Returnable(node))
    && (forall node | node in ItemNodes(row.Items()) :: Returnable(node))
    && WindowsAligned(Escape(LabelOf(row.cells)))
  }

  /** One scan of the row, by the nodes it finds. */
  lemma RowIsScanned(row: Row, name: string, context: string)
    requires SoundRow(row) && RowWithin(row) && (name == "td" || name == "ul" || name == "input")
    ensures IsTagName(name)
    ensures var r, nodes := ScanFrom(Print(Escaped(RowNodes(row))), name, 0, context), Outermost(RowNodes(row), name);
      && r.Ok? && |r.value| == |nodes|
      && forall i | 0 <= i < |nodes| ::
           && nodes[i].Element? && r.value[i].attrs == ReadAttributes(nodes[i].attrs)
           && r.value[i].inner == Print(Escaped(nodes[i].children))
  {
    hide Outermost, Returnable, HtmlEscaping.Named, ScanFrom, Print, ReadAttributes, ItemNode, WindowsAligned;
    InputName();
    OutermostOfRow(row, name);
    ScanReadsEscaped(RowNodes(row), name, context);
  }

  /** The label of the row. */
  lemma LabelIsRead(row: Row)
    requires SoundRow(row) && RowWithin(row)
    ensures var cells := ScanFrom(Print(Escaped(RowNodes(row))), "td", 0, "child element count");
      cells.Ok? && |cells.value| == |row.cells| && TextOf(LabelCell(cells.value).inner) == Some(LabelOf(row.cells))
  {
    hide Outermost, Returnable, HtmlEscaping.Named, ScanFrom, Print, ReadAttributes, ItemNode,
        WindowsAligned, TextOf, Collapsed, Escape, FlatForest;
    InputName();
    RowIsScanned(row, "td", "child element count");
    OutermostOfRow(row, "td");
    var k := if |row.cells| == 4 then 1 else 0;
    var cell := CellsOf(row.cells)[k];
    assert cell in CellsOf(row.cells);
    NamedInside(RowNodes(row), "td", cell);
    TextOfEscapedPage(row.cells[k]);
  }

  /** Its one list holds its one score. */
  lemma ListIsRead(row: Row)
    requires SoundRow(row) && RowWithin(row)
    ensures var lists := ScanFrom(Print(Escaped(RowNodes(row))), "ul", 0, "element count");
      && lists.Ok? && |lists.value| == 1 && ListInputs(lists.value[0]).Ok?
      && |ListInputs(lists.value[0]).value| == 1
      && ListInputs(lists.value[0]).value[0].attrs == ReadAttributes(ItemNode(row.score).attrs)
  {
    hide Outermost, Returnable, HtmlEscaping.Named, ScanFrom, Print, ReadAttributes, ItemNode, WindowsAligned;
    InputName();
    RowIsScanned(row, "ul", "element count");
    OutermostOfRow(row, "ul");
    var list, score := ListNode(row.score), ItemNode(row.score);
    assert list in [list];
    NamedInside(RowNodes(row), "ul", list);
    ScoreIsInput(row.score);
    InputIsOutermost(score, "input");
    assert ItemNodes(row.Items())[0] == score;
    ScanReadsEscaped([score], "input", "child element count");
  }

  lemma ScoreIsInput(score: Item)
    ensures ItemNode(score).Element? && ItemNode(score).name == "input" && ItemNode(score).children == []
    ensures ListNode(score).children == [ItemNode(score)]
  {
  }

  lemma OneName(list: RawElement, score: Item)
    requires var inputs := ListInputs(list);
      inputs.Ok? && |inputs.value| == 1 && inputs.value[0].attrs == ReadAttributes(ItemNode(score).attrs)
    ensures ScoreNameFrom([list], None) == Ok(if Collapsed(score.name) == "" then None else Some(Collapsed(score.name)))
  {
    hide ListInputs, ReadAttributes, ItemNode, Collapsed, IsSubmitted, IsRemark, Takes, Classed;
    var inputs := ListInputs(list).value;
    ItemReads(inputs[0], score);
    assert inputs[..0] == [] && NamesOf([]) == [];
    assert NamesOf(inputs) == if Collapsed(score.name) == "" then [] else [Collapsed(score.name)];
    assert [list][1..] == [];
  }

  lemma InputsAreRead(row: Row)
    requires SoundRow(row) && RowWithin(row)
    ensures IsTagName("input")
    ensures var inputs := ScanFrom(Print(Escaped(RowNodes(row))), "input", 0, "element count");
      inputs.Ok? && InputsAre(inputs.value, row.Items())
  {
    hide Outermost, Returnable, HtmlEscaping.Named, ScanFrom, Print, ReadAttributes, ItemNode,
        WindowsAligned, LabelOf, InputsAre, SoundRow, RowWithin, RowNodes;
    RowIsScanned(row, "input", "element count");
    OutermostOfRow(row, "input");
    var inputs, nodes := ScanFrom(Print(Escaped(RowNodes(row))), "input", 0, "element count").value,
        ItemNodes(row.Items());
    assert forall i | 0 <= i < |nodes| :: nodes[i] == ItemNode(row.Items()[i]);
    NodesAre(inputs, row.Items());
  }

  lemma NodesAre(inputs: seq<RawElement>, items: seq<Item>)
    requires |inputs| == |items|
    requires forall i | 0 <= i < |items| ::
               ItemNodes(items)[i].Element? && inputs[i].attrs == ReadAttributes(ItemNodes(items)[i].attrs)
    ensures InputsAre(inputs, items)
  {
    hide ReadAttributes, ItemNode;
  }

  /** What the row is: nothing without a score, unreadable with a field no form could hold or a second comment. */
  function QuestionOfRow(row: Row): Result<Option<Question>, QuestionError>
    requires |row.cells| > 0
  {
    var name := Collapsed(row.score.name);
    var remarks := Beside(row.Items(), name, true);
    if name == "" then Ok(None)
    else if !AllSubmittable(row.Items()) || |remarks| > 1 then Err(UnrecognizedField)
    else
      Ok(Some(Question(LabelOf(row.cells), 1, name, Beside(row.Items(), name, false),
                       if |remarks| == 1 then Some(remarks[0]) else None)))
  }

  /** The parts of a row put together. */
  lemma QuestionOfParts(lists: seq<RawElement>, inputs: seq<RawElement>, row: Row)
    requires |row.cells| > 0
    requires var name := Collapsed(row.score.name);
      && ScoreNameFrom(lists, None) == Ok(if name == "" then None else Some(name))
      && forall remarks :: FieldsBeside(inputs, name, remarks) == Beside(row.Items(), name, remarks)
    requires AllCarryable(inputs) <==> AllSubmittable(row.Items())
    ensures QuestionOf(LabelOf(row.cells), lists, Ok(inputs)) == QuestionOfRow(row)
  {
    hide ScoreNameFrom, AllCarryable, AllSubmittable, FieldsBeside, Beside, Collapsed, LabelOf;
  }

  /**
   The HTML of a question row is read back as its question: the label of the right cell, the score
   by its own name and the lowest value, the companions with their values in order, the comment if
   there is one; buttons and inputs without a name are left out.
   */
  lemma QuestionRowIsReadBack(row: Row)
    requires SoundRow(row) && RowWithin(row)
    ensures RowQuestion(Print(Escaped(RowNodes(row)))) == QuestionOfRow(row)
  {
    hide ScanFrom, Print, ReadAttributes, Beside, ItemNode, WindowsAligned, TextOf, Collapsed, LabelOf, ListInputs,
        FieldsBeside, AllCarryable, AllSubmittable, ScoreNameFrom, RowWithin, Outermost, QuestionOf, QuestionOfRow,
        InputsAre;
    var html := Print(Escaped(RowNodes(row)));
    InputName();
    LabelIsRead(row);
    ListIsRead(row);
    var lists := ScanFrom(html, "ul", 0, "element count").value;
    OneName(lists[0], row.score);
    assert lists == [lists[0]];
    InputsAreRead(row);
    var inputs := ScanFrom(html, "input", 0, "element count").value;
    InputsSort(inputs, Collapsed(row.score.name), row.Items());
    QuestionOfParts(lists, inputs, row);
  }
}
