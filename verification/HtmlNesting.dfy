/**
 What a scan of a printed page leaves out, and when it panics: the outermost elements
 against all elements of the name, and against the children of the page.
 */
module HtmlNesting {
  import opened Wrappers
  import opened Text
  import opened HtmlClose
  import opened HtmlAttributes
  import opened HtmlEntities
  import opened HtmlElements
  import opened HtmlForest
  import opened HtmlRoundTrip
  import Utf8

  // ---------------------------------------------------------------- at any nesting depth

  /** The elements of one name at any depth, in document order. */
  function AllIn(node: Node, name: string): seq<Node>
    decreases node, 1
  {
    match node
    case Element(m, _, _, children) => (if m == name then [node] else []) + All(children, name)
    case _ => []
  }

  function All(forest: seq<Node>, name: string): seq<Node>
    decreases forest, 0
  {
    if forest == [] then [] else AllIn(forest[0], name) + All(forest[1..], name)
  }

  /** No element of the name holds another one. */
  predicate UnnestedIn(node: Node, name: string)
    decreases node, 1
  {
    match node
    case Element(m, _, _, children) => if m == name then All(children, name) == [] else Unnested(children, name)
    case _ => true
  }

  predicate Unnested(forest: seq<Node>, name: string)
    decreases forest, 0
  {
    forest == [] || (UnnestedIn(forest[0], name) && Unnested(forest[1..], name))
  }

  lemma {:induction false} NodeOutermostIsAll(node: Node, name: string)
    ensures |OutermostIn(node, name)| <= |AllIn(node, name)|
    ensures UnnestedIn(node, name) ==> OutermostIn(node, name) == AllIn(node, name)
    ensures |OutermostIn(node, name)| == |AllIn(node, name)| ==> UnnestedIn(node, name)
    decreases node, 1
  {
    match node
    case Element(m, _, _, children) =>
      OutermostIsAll(children, name);
      assert [] + All(children, name) == All(children, name);
      assert All(children, name) == [] ==> [node] + All(children, name) == [node];
    case _ =>
  }

  lemma {:induction false} OutermostIsAll(forest: seq<Node>, name: string)
    ensures |Outermost(forest, name)| <= |All(forest, name)|
    ensures Unnested(forest, name) ==> Outermost(forest, name) == All(forest, name)
    ensures |Outermost(forest, name)| == |All(forest, name)| ==> Unnested(forest, name)
    decreases forest, 0
  {
    if forest != [] {
      NodeOutermostIsAll(forest[0], name);
      OutermostIsAll(forest[1..], name);
    }
  }

  // ---------------------------------------------------------------- direct children

  /** The elements of one name that are nodes of the forest itself. */
  function TopLevel(forest: seq<Node>, name: string): seq<Node> {
    if forest == [] then []
    else (if forest[0].Element? && forest[0].name == name then [forest[0]] else []) + TopLevel(forest[1..], name)
  }

  /** No element of the name starts deeper outside one of that name. */
  predicate Shallow(forest: seq<Node>, name: string) {
    forall i | 0 <= i < |forest| && forest[i].Element? && forest[i].name != name ::
        Outermost(forest[i].children, name) == []
  }

  lemma {:induction false} OutermostIsTopLevel(forest: seq<Node>, name: string)
    ensures |TopLevel(forest, name)| <= |Outermost(forest, name)|
    ensures Shallow(forest, name) ==> Outermost(forest, name) == TopLevel(forest, name)
    ensures |Outermost(forest, name)| == |TopLevel(forest, name)| ==> Shallow(forest, name)
    decreases |forest|
  {
    if forest != [] {
      OutermostIsTopLevel(forest[1..], name);
      assert forall i | 0 < i < |forest| :: forest[i] == forest[1..][i - 1];
      assert forall i | 0 <= i < |forest| - 1 :: forest[1..][i] == forest[i + 1];
    }
  }

  // ---------------------------------------------------------------- what a scan returns

  /** The scan returned exactly these nodes, each with its own source and content. */
  ghost predicate Returns(r: Elements, nodes: seq<Node>) {
    && r.Ok? && |r.value| == |nodes|
    && forall i | 0 <= i < |nodes| ::
         && nodes[i].Element?
         && r.value[i].outer == PrintNode(nodes[i]) && r.value[i].inner == Print(nodes[i].children)
  }

  /** A node of supported size whose values can all be decoded. */
  ghost predicate Readable(node: Node) {
    node.Element? && Utf8.Len(PrintNode(node)) <= MAX_ELEMENT_BYTES && AttributesAligned(Pairs(node.attrs))
  }

  lemma ScannedExactly(node: Node)
    requires node.Element?
    ensures Scanned(node).Ok? <==> Readable(node)
    ensures Scanned(node) == Err(SplitCharacter) <==>
            Utf8.Len(PrintNode(node)) <= MAX_ELEMENT_BYTES && !AttributesAligned(Pairs(node.attrs))
  {
    hide AttributesAligned, NormalizedAttributes, PrintNode, Print, Utf8.Len;
    NormalizedExactly(Pairs(node.attrs));
  }

  lemma ScanReturnsOutermost(forest: seq<Node>, name: string, context: string)
    requires IsTagName(name) && Printable(forest)
    requires |Outermost(forest, name)| <= MAX_ELEMENTS
    requires forall node | node in Outermost(forest, name) :: Readable(node)
    ensures Returns(ScanFrom(Print(forest), name, 0, context), Outermost(forest, name))
  {
    hide Readable, IsTagName, Printable, Scanned, ScanFrom;
    forall node | node in Outermost(forest, name)
      ensures node.Element? && Scanned(node).Ok?
    {
      ReadableIsElement(node);
      ScannedExactly(node);
    }
    ScanReadsBack(forest, name, context);
  }

  lemma ReadableIsElement(node: Node)
    requires Readable(node)
    ensures node.Element?
  {
  }

  /**
   A scan returns the elements of the name at any nesting depth exactly when none of them
   holds another one; otherwise it returns fewer.
   */
  lemma ScanFindsAllExactly(forest: seq<Node>, name: string)
    requires IsTagName(name) && Printable(forest)
    requires |Outermost(forest, name)| <= MAX_ELEMENTS
    requires forall node | node in Outermost(forest, name) :: Readable(node)
    ensures Returns(ScanFrom(Print(forest), name, 0, "element count"), All(forest, name)) <==> Unnested(forest, name)
    ensures !Unnested(forest, name) ==> |Outermost(forest, name)| < |All(forest, name)|
  {
    hide Readable, IsTagName, Printable, ScanFrom, Outermost, All, Unnested;
    ScanReturnsOutermost(forest, name, "element count");
    OutermostIsAll(forest, name);
  }

  /**
   `direct_children` returns the children of that name exactly when none starts deeper
   outside one of that name; otherwise it returns more.
   */
  lemma ChildrenAreDirectExactly(forest: seq<Node>, name: string)
    requires IsTagName(name) && Printable(forest)
    requires |Outermost(forest, name)| <= MAX_ELEMENTS
    requires forall node | node in Outermost(forest, name) :: Readable(node)
    ensures Returns(ScanFrom(Print(forest), name, 0, "child element count"), TopLevel(forest, name)) <==>
            Shallow(forest, name)
    ensures !Shallow(forest, name) ==> |TopLevel(forest, name)| < |Outermost(forest, name)|
  {
    hide Readable, IsTagName, Printable, ScanFrom, Outermost, TopLevel, Shallow;
    ScanReturnsOutermost(forest, name, "child element count");
    OutermostIsTopLevel(forest, name);
  }

  // ---------------------------------------------------------------- two inputs

  const CELL: Node := Element("td", Plain("td"), [], [])
  /** A table cell in a table cell. */
  const NESTED: seq<Node> := [Element("td", Plain("td"), [], [CELL])]
  /** A table cell in a row. */
  const DEEPER: seq<Node> := [Element("tr", Plain("tr"), [], [CELL])]

  lemma {:induction false} LenOfAscii(s: string)
    requires IsAsciiText(s)
    ensures Utf8.Len(s) == |s|
  {
    if s != "" {
      LenOfAscii(s[1..]);
      Utf8.EncodeHead(s);
    }
  }

  lemma SmallNode(node: Node)
    requires node.Element? && node.attrs == [] && IsAsciiText(PrintNode(node)) && |PrintNode(node)| <= 100
    ensures Readable(node)
  {
    LenOfAscii(PrintNode(node));
  }

  lemma CellTags()
    ensures StartTag(Plain("td"), []) == "<td>" && CloseTag(Plain("td")) == "</td>" && !Hollow("td", Plain("td"))
  {
    assert PrintAttributes([]) == "";
  }

  lemma PrintedCells()
    ensures PrintNode(CELL) == "<td></td>" && PrintNode(NESTED[0]) == "<td><td></td></td>"
  {
    hide StartTag, CloseTag, Hollow;
    CellTags();
    assert Print([]) == "";
    assert Print([CELL]) == "<td></td>";
  }

  lemma PlainSpells(name: string)
    requires IsTagName(name)
    ensures TagOf(Plain(name), name)
  {
    forall i | 0 <= i < |name|
      ensures LowerChar(name[i]) == name[i]
    {
      assert name[i] in name;
    }
    assert Lower(name) == name;
  }

  lemma CellsArePrintable()
    ensures IsTagName("td") && Printable(NESTED) && Printable(DEEPER)
  {
    PlainSpells("tr");
    PlainSpells("td");
    assert TagAttributes([]);
    assert Printable([]) && PrintableNode(CELL) && Printable([CELL]);
    assert PrintableNode(NESTED[0]) && PrintableNode(DEEPER[0]);
  }

  /** The inner cell is at a nesting depth, and the scan does not return it. */
  lemma NestedCellIsNotScanned()
    ensures IsTagName("td") && Printable(NESTED)
    ensures var r := ScanFrom(Print(NESTED), "td", 0, "element count");
            Returns(r, [NESTED[0]]) && All(NESTED, "td") == [NESTED[0], CELL] && !Returns(r, All(NESTED, "td"))
  {
    hide ScanFrom, Readable, Printable, IsTagName, PrintNode, Utf8.Len;
    CellsArePrintable();
    PrintedCells();
    SmallNode(NESTED[0]);
    assert All([], "td") == [] && All([CELL], "td") == [CELL];
    assert All(NESTED, "td") == [NESTED[0], CELL];
    assert Outermost(NESTED, "td") == [NESTED[0]];
    ScanReturnsOutermost(NESTED, "td", "element count");
  }

  /** The cell is no child of the page, and `direct_children` returns it. */
  lemma DeeperCellIsReturned()
    ensures IsTagName("td") && Printable(DEEPER)
    ensures Returns(ScanFrom(Print(DEEPER), "td", 0, "child element count"), [CELL]) && TopLevel(DEEPER, "td") == []
  {
    hide ScanFrom, Readable, Printable, IsTagName, PrintNode, Utf8.Len;
    CellsArePrintable();
    PrintedCells();
    SmallNode(CELL);
    assert Outermost([CELL], "td") == [CELL];
    assert Outermost(DEEPER, "td") == [CELL];
    ScanReturnsOutermost(DEEPER, "td", "child element count");
  }

  // ---------------------------------------------------------------- when the scan of a print panics

  /** The first node that is not readable is `nodes[k]`: it has a supported size and a value that cannot be decoded. */
  ghost predicate FirstUndecodable(nodes: seq<Node>, k: nat) {
    && k < |nodes| && nodes[k].Element?
    && Utf8.Len(PrintNode(nodes[k])) <= MAX_ELEMENT_BYTES && !AttributesAligned(Pairs(nodes[k].attrs))
    && forall i | 0 <= i < k :: Readable(nodes[i])
  }

  ghost predicate UndecodableBeforeLimit(nodes: seq<Node>, count: nat) {
    exists k: nat :: FirstUndecodable(nodes, k) && count + k <= MAX_ELEMENTS
  }

  lemma UndecodableCons(nodes: seq<Node>, count: nat)
    requires nodes != [] && nodes[0].Element? && count <= MAX_ELEMENTS
    ensures UndecodableBeforeLimit(nodes, count) <==>
      Scanned(nodes[0]) == Err(SplitCharacter)
      || (Scanned(nodes[0]).Ok? && count < MAX_ELEMENTS && UndecodableBeforeLimit(nodes[1..], count + 1))
  {
    hide Scanned, AttributesAligned, PrintNode, Utf8.Len;
    var rest := nodes[1..];
    ScannedExactly(nodes[0]);
    if Scanned(nodes[0]) == Err(SplitCharacter) {
      assert FirstUndecodable(nodes, 0);
    }
    if Scanned(nodes[0]).Ok? && count < MAX_ELEMENTS && UndecodableBeforeLimit(rest, count + 1) {
      var k: nat :| FirstUndecodable(rest, k) && count + 1 + k <= MAX_ELEMENTS;
      assert FirstUndecodable(nodes, k + 1);
    }
    if UndecodableBeforeLimit(nodes, count) && Scanned(nodes[0]) != Err(SplitCharacter) {
      var k: nat :| FirstUndecodable(nodes, k) && count + k <= MAX_ELEMENTS;
      assert k > 0 && Readable(nodes[0]);
      forall i | 0 <= i < k - 1
        ensures Readable(rest[i])
      {
        assert rest[i] == nodes[i + 1];
      }
      assert FirstUndecodable(rest, k - 1);
    }
  }

  lemma {:induction false} ScannedThenPanicsExactly(nodes: seq<Node>, name: string, count: nat, context: string)
    requires IsTagName(name) && AllElements(nodes) && count <= MAX_ELEMENTS
    ensures ScannedThen(nodes, "", name, count, context) == Err(SplitCharacter) <==>
            UndecodableBeforeLimit(nodes, count)
  {
    hide Scanned, IsTagName, UndecodableBeforeLimit;
    if nodes == [] {
      NothingUndecodable(count);
      assert NextElement("", name) == Ok(None);
    } else {
      assert nodes[0] in nodes;
      UndecodableCons(nodes, count);
      if count < MAX_ELEMENTS {
        ScannedThenPanicsExactly(nodes[1..], name, count + 1, context);
      }
    }
  }

  lemma NothingUndecodable(count: nat)
    ensures !UndecodableBeforeLimit([], count)
  {
  }

  /**
   Scanning a print panics exactly when the first outermost element that cannot be returned holds an
   undecodable value.
   */
  lemma PrintScanPanicsExactly(forest: seq<Node>, name: string, context: string)
    requires IsTagName(name) && Printable(forest)
    ensures ScanFrom(Print(forest), name, 0, context) == Err(SplitCharacter) <==>
            UndecodableBeforeLimit(Outermost(forest, name), 0)
  {
    hide Scanned, ScanFrom, IsTagName, Printable, UndecodableBeforeLimit;
    PrintScanRoundTrip(forest, name, context);
    ScannedThenPanicsExactly(Outermost(forest, name), name, 0, context);
  }
}
