/**
 Payroll tables as HTML: the cell texts that the scanner and the text loop make of a
 printed page, and the column order on the page itself.
 */
module BankPages {
  import opened Wrappers
  import opened Text
  import opened HtmlEntities
  import opened HtmlElements
  import opened HtmlForest
  import opened HtmlRoundTrip
  import opened HtmlEscaping
  import opened HtmlText
  import opened BankMonths
  import opened BankReceipts

  const CHILDREN := "child element count"

  // ---------------------------------------------------------------- reading a table

  /** The rows beside any `tbody`; a scan that fails finds none, and one that panics is `None`. */
  function DirectRows(inner: string): Option<seq<RawElement>> {
    match ScanFrom(inner, "tr", 0, CHILDREN)
    case Ok(rows) => Some(rows)
    case Err(error) => if error.SplitCharacter? then None else Some([])
  }

  /** `table_rows`: the rows of the first `tbody` if it has any. */
  function TableRows(inner: string): Option<seq<RawElement>> {
    match ScanFrom(inner, "tbody", 0, CHILDREN)
    case Err(error) => if error.SplitCharacter? then None else DirectRows(inner)
    case Ok(bodies) =>
      if |bodies| == 0 then DirectRows(inner)
      else
        match ScanFrom(bodies[0].inner, "tr", 0, CHILDREN)
        case Err(error) => if error.SplitCharacter? then None else DirectRows(inner)
        case Ok(rows) => if |rows| == 0 then DirectRows(inner) else Some(rows)
  }

  /** The cells of a row are read as these texts, without a panic. */
  ghost predicate RowReads(row: string, name: string, cells: Cells)
    requires IsTagName(name)
  {
    var r := ScanFrom(row, name, 0, CHILDREN);
    if r.Err? then !r.error.SplitCharacter? && cells.None?
    else
      && cells.Some? && |cells.value| == |r.value|
      && forall i | 0 <= i < |r.value| :: TextOf(r.value[i].inner) == Some(cells.value[i])
  }

  /** The content of a `table` element is read as this table, without a panic. */
  ghost predicate TableReads(inner: string, table: Table) {
    var rows := TableRows(inner);
    && rows.Some?
    && if |rows.value| == 0 then table.NoRows?
       else
         && table.Table?
         && RowReads(rows.value[0].inner, "th", table.th) && RowReads(rows.value[0].inner, "td", table.td)
         && |table.rows| == |rows.value| - 1
         && forall i | 0 <= i < |table.rows| :: RowReads(rows.value[i + 1].inner, "td", table.rows[i])
  }

  // ---------------------------------------------------------------- reading the headings

  function PrependHeadings(headings: seq<string>, r: Result<seq<string>, ParseError>): Result<seq<string>, ParseError> {
    match r
    case Err(error) => Err(error)
    case Ok(rest) => Ok(headings + rest)
  }

  /** The months that the elements name, up to the first whose text makes the source panic. */
  function HeadingsIn(strongs: seq<RawElement>): Result<seq<string>, ParseError> {
    if |strongs| == 0 then Ok([])
    else
      match TextOf(strongs[0].inner)
      case None => Err(Panicked)
      case Some(text) => PrependHeadings(NamedBy(text), HeadingsIn(strongs[1..]))
  }

  function NamedBy(text: string): seq<string> {
    if MonthFromHeading(text).Some? then [MonthFromHeading(text).value] else []
  }

  /** The headings of a page's text. */
  function PageHeadings(html: string): Result<seq<string>, ParseError> {
    TableNames();
    match ScanFrom(html, "strong", 0, "element count")
    case Err(error) => Err(if error.SplitCharacter? then Panicked else ParseError.TooLarge)
    case Ok(strongs) => HeadingsIn(strongs)
  }

  lemma HeadingsRound(strongs: seq<RawElement>, i: nat, headings: seq<string>)
    requires i < |strongs|
    ensures var text := TextOf(strongs[i].inner);
            PrependHeadings(headings, HeadingsIn(strongs[i..])) ==
              if text.None? then Err(Panicked)
              else PrependHeadings(headings + NamedBy(text.value), HeadingsIn(strongs[i + 1..]))
  {
    hide TextOf, NamedBy;
    assert strongs[i..][1..] == strongs[i + 1..];
    var text, rest := TextOf(strongs[i].inner), HeadingsIn(strongs[i + 1..]);
    assert text.Some? && rest.Ok? ==>
        headings + (NamedBy(text.value) + rest.value) == headings + NamedBy(text.value) + rest.value;
  }

  lemma NoMoreHeadings(headings: seq<string>, r: Result<seq<string>, ParseError>)
    ensures HeadingsIn([]) == Ok([]) && PrependHeadings(headings, Ok([])) == Ok(headings)
    ensures PrependHeadings([], r) == r
  {
    assert headings + [] == headings;
    assert r.Ok? ==> [] + r.value == r.value;
  }

  /** The first loop of `parse_bank_receipts_html`. */
  method ReadHeadings(html: string) returns (r: Result<seq<string>, ParseError>)
    ensures r == PageHeadings(html)
  {
    hide ScanFrom, TextOf, HeadingsIn, PrependHeadings, MonthFromHeading;
    TableNames();
    var strongs := Scan(html, "strong");
    if strongs.Err? {
      return Err(if strongs.error.SplitCharacter? then Panicked else ParseError.TooLarge);
    }
    var elements := strongs.value;
    var headings: seq<string> := [];
    NoMoreHeadings([], HeadingsIn(elements));
    assert elements[0..] == elements;
    for i := 0 to |elements|
      invariant HeadingsIn(elements) == PrependHeadings(headings, HeadingsIn(elements[i..]))
    {
      HeadingsRound(elements, i, headings);
      var text := ElementText(elements[i].inner);
      if text.None? {
        return Err(Panicked);
      }
      var month := MonthFromHeading(text.value);
      if month.Some? {
        headings := headings + [month.value];
      } else {
        assert headings + [] == headings;
      }
    }
    assert elements[|elements|..] == [];
    NoMoreHeadings(headings, Ok([]));
    return Ok(headings);
  }

  // ---------------------------------------------------------------- tables of a forest

  /** The rows of a table's content. */
  function RowNodes(content: seq<Node>): (rows: seq<Node>)
    ensures forall row | row in rows :: row.Element?
  {
    OutermostAreElements(content, "tbody");
    OutermostAreElements(content, "tr");
    var bodies := Outermost(content, "tbody");
    if |bodies| == 0 then Outermost(content, "tr")
    else
      assert bodies[0] in bodies;
      OutermostAreElements(bodies[0].children, "tr");
      var rows := Outermost(bodies[0].children, "tr");
      if |rows| == 0 then Outermost(content, "tr") else rows
  }

  /** The cells of a row that have one name. */
  function CellNodes(row: Node, name: string): (cells: seq<Node>)
    requires row.Element?
    ensures forall cell | cell in cells :: cell.Element?
  {
    OutermostAreElements(row.children, name);
    Outermost(row.children, name)
  }

  function CellTexts(cells: seq<Node>): (texts: seq<string>)
    requires forall cell | cell in cells :: cell.Element?
    ensures |texts| == |cells|
    ensures forall i | 0 <= i < |cells| :: texts[i] == Collapsed(FlatForest(cells[i].children))
  {
    if cells == [] then [] else [Collapsed(FlatForest(cells[0].children))] + CellTexts(cells[1..])
  }

  /** The table that a forest shows: the collapsed texts of its cells. */
  function TableOf(content: seq<Node>): Table {
    var rows := RowNodes(content);
    if |rows| == 0 then NoRows
    else
      Table(Some(CellTexts(CellNodes(rows[0], "th"))), Some(CellTexts(CellNodes(rows[0], "td"))), RowTexts(rows[1..]))
  }

  function RowTexts(rows: seq<Node>): (texts: seq<Cells>)
    requires forall row | row in rows :: row.Element?
    ensures |texts| == |rows|
    ensures forall i | 0 <= i < |rows| :: texts[i] == Some(CellTexts(CellNodes(rows[i], "td")))
  {
    if rows == [] then [] else [Some(CellTexts(CellNodes(rows[0], "td")))] + RowTexts(rows[1..])
  }

  // ---------------------------------------------------------------- within the limits

  /** A scan of the printed forest for the name stays within the limits and decodes every value. */
  ghost predicate Scannable(forest: seq<Node>, name: string) {
    |Outermost(forest, name)| <= MAX_ELEMENTS && forall node | node in Outermost(forest, name) :: Returnable(node)
  }

  /** The text of every cell can be decoded. */
  ghost predicate TextsDecode(cells: seq<Node>) {
    forall cell | cell in cells :: cell.Element? && WindowsAligned(Escape(Collapsed(FlatForest(cell.children))))
  }

  ghost predicate RowWithin(row: Node, name: string)
    requires row.Element?
  {
    Scannable(row.children, name) && TextsDecode(CellNodes(row, name))
  }

  ghost predicate TableWithin(content: seq<Node>) {
    var bodies, rows := Outermost(content, "tbody"), RowNodes(content);
    && Named(content)
    && Scannable(content, "tbody") && Scannable(content, "tr")
    && (|bodies| > 0 ==> bodies[0].Element? && Scannable(bodies[0].children, "tr"))
    && (|rows| > 0 ==> RowWithin(rows[0], "th"))
    && forall row | row in rows :: RowWithin(row, "td")
  }

  // ---------------------------------------------------------------- the page is read as it is shown

  lemma TableNames()
    ensures IsTagName("table") && IsTagName("tbody") && IsTagName("tr") && IsTagName("th") && IsTagName("td")
    ensures IsTagName("strong")
  {
  }

  /** The elements a scan returned, by the nodes they are prints of. */
  ghost predicate Prints(elements: seq<RawElement>, nodes: seq<Node>) {
    && |elements| == |nodes|
    && forall i | 0 <= i < |nodes| :: nodes[i].Element? && elements[i].inner == Print(Escaped(nodes[i].children))
  }

  lemma ScanPrints(forest: seq<Node>, name: string, context: string)
    requires IsTagName(name) && Named(forest) && Scannable(forest, name)
    ensures var r := ScanFrom(Print(Escaped(forest)), name, 0, context);
            r.Ok? && Prints(r.value, Outermost(forest, name))
  {
    hide ScanFrom, Print, Outermost, Returnable, Named, IsTagName;
    ScanReadsEscaped(forest, name, context);
  }

  lemma RowIsRead(row: Node, name: string)
    requires IsTagName(name) && row.Element? && Named(row.children) && RowWithin(row, name)
    ensures RowReads(Print(Escaped(row.children)), name, Some(CellTexts(CellNodes(row, name))))
  {
    hide ScanFrom, Print, Outermost, Scannable, Named, IsTagName, TextOf, WindowsAligned, Escape, Collapsed, FlatForest;
    ScanPrints(row.children, name, CHILDREN);
    var cells := CellNodes(row, name);
    forall i | 0 <= i < |cells|
      ensures TextOf(Print(Escaped(cells[i].children))) == Some(CellTexts(cells)[i])
    {
      assert cells[i] in cells;
      NamedInside(row.children, name, cells[i]);
      TextOfEscapedPage(cells[i].children);
    }
  }

  lemma RowsAreFound(content: seq<Node>)
    requires TableWithin(content)
    ensures var rows := TableRows(Print(Escaped(content)));
            rows.Some? && Prints(rows.value, RowNodes(content))
    ensures forall row | row in RowNodes(content) :: Named(row.children)
  {
    hide ScanFrom, Print, Outermost, Scannable, Named, IsTagName, RowWithin;
    TableNames();
    ScanPrints(content, "tbody", CHILDREN);
    ScanPrints(content, "tr", CHILDREN);
    var bodies := Outermost(content, "tbody");
    if |bodies| > 0 {
      assert bodies[0] in bodies;
      NamedInside(content, "tbody", bodies[0]);
      ScanPrints(bodies[0].children, "tr", CHILDREN);
    }
    forall row | row in RowNodes(content)
      ensures Named(row.children)
    {
      if row in Outermost(content, "tr") {
        NamedInside(content, "tr", row);
      } else {
        NamedInside(bodies[0].children, "tr", row);
      }
    }
  }

  /** The printed table is read as the texts of its cells. */
  lemma PrintedTableIsRead(content: seq<Node>)
    requires TableWithin(content)
    ensures TableReads(Print(Escaped(content)), TableOf(content))
  {
    hide Print, Outermost, Scannable, Named, IsTagName, RowWithin, RowReads, TableRows, RowNodes, CellNodes, CellTexts;
    RowsAreFound(content);
    TableNames();
    var rows := RowNodes(content);
    if |rows| > 0 {
      assert rows[0] in rows;
      RowIsRead(rows[0], "th");
      RowIsRead(rows[0], "td");
      forall i | 0 <= i < |rows| - 1
        ensures RowReads(Print(Escaped(rows[i + 1].children)), "td", RowTexts(rows[1..])[i])
      {
        assert rows[i + 1] in rows && rows[1..][i] == rows[i + 1];
        RowIsRead(rows[i + 1], "td");
      }
    }
  }

  // ---------------------------------------------------------------- column order on the page

  lemma PermutedAt<Cell>(cells: seq<Cell>, perm: seq<nat>, i: nat)
    requires Permutation(perm) && |perm| <= |cells| && i < |cells|
    ensures i < |Permuted(cells, perm)|
    ensures Permuted(cells, perm)[i] == if i < |perm| then cells[perm[i]] else cells[i]
  {
  }

  lemma PermutedLength<Cell>(cells: seq<Cell>, perm: seq<nat>)
    requires Permutation(perm) && |perm| <= |cells|
    ensures |Permuted(cells, perm)| == |cells|
  {
  }

  lemma PermutedAreElements(cells: seq<Node>, perm: seq<nat>)
    requires Permutation(perm) && |perm| <= |cells|
    requires forall cell | cell in cells :: cell.Element?
    ensures |Permuted(cells, perm)| == |cells|
    ensures forall cell | cell in Permuted(cells, perm) :: cell.Element?
  {
    hide Permuted;
    var moved := Permuted(cells, perm);
    PermutedLength(cells, perm);
    forall i | 0 <= i < |moved|
      ensures moved[i].Element?
    {
      PermutedAt(cells, perm, i);
      assert moved[i] in cells;
    }
  }

  lemma TextsOfPermuted(cells: seq<Node>, perm: seq<nat>)
    requires Permutation(perm) && |perm| <= |cells|
    requires forall cell | cell in cells :: cell.Element?
    ensures forall cell | cell in Permuted(cells, perm) :: cell.Element?
    ensures CellTexts(Permuted(cells, perm)) == Permuted(CellTexts(cells), perm)
  {
    hide Permuted, CellTexts, FlatForest, Collapsed;
    PermutedAreElements(cells, perm);
    var moved, texts := Permuted(cells, perm), CellTexts(cells);
    PermutedLength(texts, perm);
    forall i | 0 <= i < |cells|
      ensures CellTexts(moved)[i] == Permuted(texts, perm)[i]
    {
      PermutedAt(cells, perm, i);
      PermutedAt(texts, perm, i);
    }
  }

  /** The columns of one table's content, permuted: its header cells and those of every full row. */
  ghost predicate ColumnsMoved(content: seq<Node>, other: seq<Node>, perm: seq<nat>) {
    var rows, others := RowNodes(content), RowNodes(other);
    && |rows| == |others| > 0 && Permutation(perm)
    && var header := CellNodes(rows[0], "th");
    && |perm| == |header| && CellNodes(others[0], "th") == Permuted(header, perm)
    && LabelsOccurOnce(CellTexts(header))
    && forall i | 0 < i < |rows| ::
         var cells, moved := CellNodes(rows[i], "td"), CellNodes(others[i], "td");
         (|cells| < COLUMNS && |moved| < COLUMNS) || (|perm| <= |cells| && moved == Permuted(cells, perm))
  }

  lemma MovedIsReordered(content: seq<Node>, other: seq<Node>, perm: seq<nat>)
    requires ColumnsMoved(content, other, perm)
    ensures ReorderedBy(TableOf(content), TableOf(other), perm)
  {
    hide RowNodes, CellNodes, CellTexts, Permuted, Permutation, LabelsOccurOnce;
    var rows, others := RowNodes(content), RowNodes(other);
    assert rows[0] in rows && others[0] in others;
    TextsOfPermuted(CellNodes(rows[0], "th"), perm);
    var texts, moved := TableOf(content).rows, TableOf(other).rows;
    forall i | 0 <= i < |texts|
      ensures RowRearranged(texts[i], moved[i], perm)
    {
      assert rows[1..][i] == rows[i + 1] && others[1..][i] == others[i + 1];
      assert rows[i + 1] in rows && others[i + 1] in others;
      var cells := CellNodes(rows[i + 1], "td");
      if |perm| <= |cells| {
        TextsOfPermuted(cells, perm);
      }
    }
  }

  /** The tables of a page, in document order. */
  function PageTables(page: seq<Node>): (tables: seq<Node>)
    ensures forall table | table in tables :: table.Element?
  {
    OutermostAreElements(page, "table");
    Outermost(page, "table")
  }

  function TablesOf(tables: seq<Node>): (r: seq<Table>)
    requires forall table | table in tables :: table.Element?
    ensures |r| == |tables| && forall i | 0 <= i < |tables| :: r[i] == TableOf(tables[i].children)
  {
    if tables == [] then [] else [TableOf(tables[0].children)] + TablesOf(tables[1..])
  }

  ghost predicate PageWithin(page: seq<Node>) {
    && Named(page)
    && Scannable(page, "strong") && TextsDecode(HeadingNodes(page))
    && Scannable(page, "table") && forall table | table in PageTables(page) :: TableWithin(table.children)
  }

  /** The HTML is read as these tables, without a panic. */
  ghost predicate PageReads(html: string, tables: seq<Table>) {
    TableNames();
    var r := ScanFrom(html, "table", 0, "element count");
    r.Ok? && |r.value| == |tables| && forall i | 0 <= i < |tables| :: TableReads(r.value[i].inner, tables[i])
  }

  lemma PrintedPageIsRead(page: seq<Node>)
    requires PageWithin(page)
    ensures PageReads(Print(Escaped(page)), TablesOf(PageTables(page)))
  {
    hide ScanFrom, Print, Outermost, Scannable, Named, IsTagName, TableWithin, TableReads, TableOf;
    TableNames();
    ScanPrints(page, "table", "element count");
    var tables := PageTables(page);
    forall i | 0 <= i < |tables|
      ensures TableReads(Print(Escaped(tables[i].children)), TablesOf(tables)[i])
    {
      assert tables[i] in tables;
      PrintedTableIsRead(tables[i].children);
    }
  }

  // ---------------------------------------------------------------- headings of a page

  function HeadingNodes(page: seq<Node>): (strongs: seq<Node>)
    ensures forall strong | strong in strongs :: strong.Element?
  {
    OutermostAreElements(page, "strong");
    Outermost(page, "strong")
  }

  function MonthsIn(texts: seq<string>): seq<string> {
    if |texts| == 0 then [] else NamedBy(texts[0]) + MonthsIn(texts[1..])
  }

  /** The months a page shows, in document order. */
  function HeadingsOf(page: seq<Node>): seq<string> {
    MonthsIn(CellTexts(HeadingNodes(page)))
  }

  lemma {:induction false} HeadingsAreRead(elements: seq<RawElement>, texts: seq<string>)
    requires |elements| == |texts| && forall i | 0 <= i < |texts| :: TextOf(elements[i].inner) == Some(texts[i])
    ensures HeadingsIn(elements) == Ok(MonthsIn(texts))
  {
    hide TextOf, NamedBy;
    if |texts| > 0 {
      HeadingsAreRead(elements[1..], texts[1..]);
    }
  }

  lemma PrintedHeadingsAreRead(page: seq<Node>)
    requires Named(page) && Scannable(page, "strong") && TextsDecode(HeadingNodes(page))
    ensures PageHeadings(Print(Escaped(page))) == Ok(HeadingsOf(page))
  {
    hide ScanFrom, Print, Outermost, Scannable, Named, IsTagName, TextOf, WindowsAligned, Escape, Collapsed, FlatForest,
        MonthsIn, HeadingsIn;
    TableNames();
    ScanPrints(page, "strong", "element count");
    var strongs := HeadingNodes(page);
    forall i | 0 <= i < |strongs|
      ensures TextOf(Print(Escaped(strongs[i].children))) == Some(CellTexts(strongs)[i])
    {
      assert strongs[i] in strongs;
      NamedInside(page, "strong", strongs[i]);
      TextOfEscapedPage(strongs[i].children);
    }
    HeadingsAreRead(ScanFrom(Print(Escaped(page)), "strong", 0, "element count").value, CellTexts(strongs));
  }

  // ---------------------------------------------------------------- the page as a whole

  /** `parse_bank_receipts_html`: the HTML is read, without a panic, and parses to this ledger or error. */
  ghost predicate PageParses(html: string, cents: ToCents, ledger: Result<seq<Month>, ParseError>) {
    exists headings: seq<string>, tables: seq<Table> :: ParsesFrom(html, headings, tables, cents, ledger)
  }

  ghost predicate ParsesFrom(
      html: string, headings: seq<string>, tables: seq<Table>, cents: ToCents, ledger: Result<seq<Month>, ParseError>) {
    PageHeadings(html) == Ok(headings) && PageReads(html, tables) && ledger == Document(headings, tables, cents)
  }

  lemma RowReadsOnce(row: string, name: string, a: Cells, b: Cells)
    requires IsTagName(name) && RowReads(row, name, a) && RowReads(row, name, b)
    ensures a == b
  {
    hide ScanFrom, TextOf;
    if a.Some? {
      assert |a.value| == |b.value|;
      forall i | 0 <= i < |a.value|
        ensures a.value[i] == b.value[i]
      {
        assert Some(a.value[i]) == Some(b.value[i]);
      }
      assert a.value == b.value && b.Some?;
    }
  }

  lemma TableReadsOnce(inner: string, a: Table, b: Table)
    requires TableReads(inner, a) && TableReads(inner, b)
    ensures a == b
  {
    hide RowReads, TableRows;
    TableNames();
    var rows := TableRows(inner).value;
    if |rows| > 0 {
      RowReadsOnce(rows[0].inner, "th", a.th, b.th);
      RowReadsOnce(rows[0].inner, "td", a.td, b.td);
      forall i | 0 <= i < |a.rows|
        ensures a.rows[i] == b.rows[i]
      {
        RowReadsOnce(rows[i + 1].inner, "td", a.rows[i], b.rows[i]);
      }
      assert a.rows == b.rows;
    }
  }

  lemma PageReadsOnce(html: string, a: seq<Table>, b: seq<Table>)
    requires PageReads(html, a) && PageReads(html, b)
    ensures a == b
  {
    hide ScanFrom, TableReads;
    TableNames();
    var elements := ScanFrom(html, "table", 0, "element count").value;
    forall i | 0 <= i < |a|
      ensures a[i] == b[i]
    {
      TableReadsOnce(elements[i].inner, a[i], b[i]);
    }
  }

  /** A page parses to one ledger or error. */
  lemma LedgerIsUnique(
      html: string, cents: ToCents, a: Result<seq<Month>, ParseError>, b: Result<seq<Month>, ParseError>)
    requires PageParses(html, cents, a) && PageParses(html, cents, b)
    ensures a == b
  {
    hide PageHeadings, PageReads, Document;
    var headings: seq<string>, tables: seq<Table> :| ParsesFrom(html, headings, tables, cents, a);
    var others: seq<string>, moved: seq<Table> :| ParsesFrom(html, others, moved, cents, b);
    PageReadsOnce(html, tables, moved);
  }

  /** The ledger that a page shows. */
  function LedgerOf(page: seq<Node>, cents: ToCents): Result<seq<Month>, ParseError> {
    Document(HeadingsOf(page), TablesOf(PageTables(page)), cents)
  }

  /** A printed page parses to the ledger it shows. */
  lemma PrintedPageParses(page: seq<Node>, cents: ToCents)
    requires PageWithin(page)
    ensures PageParses(Print(Escaped(page)), cents, LedgerOf(page, cents))
  {
    hide PageHeadings, PageReads, Document, HeadingsOf, TablesOf, PageTables;
    PrintedHeadingsAreRead(page);
    PrintedPageIsRead(page);
    assert ParsesFrom(Print(Escaped(page)), HeadingsOf(page), TablesOf(PageTables(page)), cents, LedgerOf(page, cents));
  }

  ghost predicate SameButForColumns(content: seq<Node>, other: seq<Node>) {
    content == other || exists perm :: ColumnsMoved(content, other, perm)
  }

  /**
   From page to result: when the cells of each table of a printed page are permuted, each table
   in its own way, and the month headings stay, both pages parse to the same ledger or error.
   */
  lemma PageColumnOrderDoesNotMatter(page: seq<Node>, other: seq<Node>, cents: ToCents)
    requires PageWithin(page) && PageWithin(other) && |PageTables(page)| == |PageTables(other)|
    requires HeadingsOf(page) == HeadingsOf(other)
    requires forall i | 0 <= i < |PageTables(page)| ::
        SameButForColumns(PageTables(page)[i].children, PageTables(other)[i].children)
    ensures PageParses(Print(Escaped(page)), cents, LedgerOf(page, cents))
    ensures PageParses(Print(Escaped(other)), cents, LedgerOf(page, cents))
  {
    hide Print, Outermost, PageWithin, PageTables, TableOf, Document, ReorderedBy, ColumnsMoved, HeadingsOf, PageParses;
    PrintedPageParses(page, cents);
    PrintedPageParses(other, cents);
    var tables, moved := TablesOf(PageTables(page)), TablesOf(PageTables(other));
    forall i | 0 <= i < |tables|
      ensures SameUpToColumnOrder(tables[i], moved[i])
    {
      var content, others := PageTables(page)[i].children, PageTables(other)[i].children;
      if content != others {
        var perm :| ColumnsMoved(content, others, perm);
        MovedIsReordered(content, others, perm);
      }
    }
    DocumentColumnOrderDoesNotMatter(HeadingsOf(page), tables, moved, cents);
  }
}
