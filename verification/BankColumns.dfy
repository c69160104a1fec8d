/**
 What a receipt holds, by the labels of the header: each text and each amount is that of
 the row's own cell under its label; and which error a table is refused with.
 */
module BankColumns {
  import opened Wrappers
  import opened Text
  import opened HtmlEntities
  import opened BankReceipts

  // ---------------------------------------------------------------- texts

  /** A cell's text is trimmed, and cut after 512 characters. */
  lemma BoundedExactly(text: string)
    ensures |Bounded(text)| <= 512 && Bounded(text) <= Trim(text)
    ensures |Bounded(text)| < 512 ==> Bounded(text) == Trim(text)
  {
  }

  /** The characters of a text that are not white space, in order. */
  function Visible(text: string): string {
    if |text| == 0 then ""
    else Visible(text[..|text| - 1]) + if IsWhitespace(text[|text| - 1]) then "" else [text[|text| - 1]]
  }

  lemma {:induction false} SqueezedSnoc(words: seq<string>, last: string)
    ensures Squeezed(words + [last]) == Squeezed(words) + last
  {
    if words == [] {
      assert words + [last] == [last];
    } else {
      SqueezedSnoc(words[1..], last);
      assert (words + [last])[1..] == words[1..] + [last];
    }
  }

  lemma SqueezedGrown(words: seq<string>, before: string, c: char)
    ensures Squeezed(GrownWords(words, before, c)) == Squeezed(words) + if IsWhitespace(c) then "" else [c]
  {
    hide Squeezed, IsWhitespace, StartsWord;
    if IsWhitespace(c) {
      assert Squeezed(words) + "" == Squeezed(words);
    } else if StartsWord(before) || |words| == 0 {
      SqueezedSnoc(words, [c]);
    } else {
      var front, last := words[..|words| - 1], words[|words| - 1];
      assert words == front + [last];
      SqueezedSnoc(front, last);
      SqueezedSnoc(front, last + [c]);
      assert Squeezed(front) + (last + [c]) == Squeezed(front) + last + [c];
    }
  }

  /** A header cell is compared by its visible characters: white space anywhere in it does not matter. */
  lemma {:induction false} LabelIsVisible(text: string)
    ensures Label(text) == Visible(text)
    decreases |text|
  {
    hide Words, Squeezed, IsWhitespace, GrownWords;
    if |text| == 0 {
      NoWords();
      NothingSqueezed();
      assert text == "";
    } else {
      var front, last := text[..|text| - 1], text[|text| - 1];
      LabelIsVisible(front);
      WordsSnoc(front, last);
      SqueezedGrown(Words(front), front, last);
      assert text == front + [last];
    }
  }

  lemma NothingSqueezed()
    ensures Squeezed([]) == ""
  {
  }

  // ---------------------------------------------------------------- under a label

  /** The text is that of the row's cell under the first column with this label. */
  ghost predicate TextUnder(header: seq<string>, row: seq<string>, label': string, text: string) {
    exists column: nat :: FirstWithLabel(header, label', column) && column < |row| && text == Bounded(row[column])
  }

  /** The amount is that of the cell: none when the cell is empty, and the exact cents otherwise. */
  ghost predicate AmountUnder(
      header: seq<string>, row: seq<string>, label': string, amount: Option<int>, cents: ToCents) {
    exists text: string ::
      && TextUnder(header, row, label', text)
      && if text == "" then amount == None else amount.Some? && cents(text) == amount
  }

  /** Every value of the receipt is under its own label. */
  ghost predicate UnderLabels(header: seq<string>, row: seq<string>, receipt: Receipt, cents: ToCents) {
    && TextUnder(header, row, "代发部门", receipt.department)
    && TextUnder(header, row, "代发项目", receipt.project)
    && TextUnder(header, row, "代发用途", receipt.usage)
    && TextUnder(header, row, "代发说明", receipt.description)
    && TextUnder(header, row, "开户银行", receipt.bank)
    && TextUnder(header, row, "计税时间", receipt.time)
    && AmountUnder(header, row, "应发金额", receipt.total, cents)
    && AmountUnder(header, row, "扣税金额", receipt.deduction, cents)
    && AmountUnder(header, row, "实发金额", receipt.actual, cents)
    && AmountUnder(header, row, "存折金额", receipt.deposit, cents)
    && AmountUnder(header, row, "现金金额", receipt.cash, cents)
  }

  /** The columns are those of the header. */
  ghost predicate Located(header: seq<string>, positions: seq<nat>) {
    && |positions| == COLUMNS
    && forall k | 0 <= k < COLUMNS :: FirstWithLabel(header, LABELS[k], positions[k])
  }

  lemma TextStands(header: seq<string>, row: seq<string>, positions: seq<nat>, k: nat)
    requires Located(header, positions) && Complete(row, positions) && k < COLUMNS
    ensures TextUnder(header, row, LABELS[k], Fields(row, positions)[k])
  {
    hide FirstWithLabel, Bounded;
    assert FirstWithLabel(header, LABELS[k], positions[k]);
  }

  lemma AmountStands(
      header: seq<string>, row: seq<string>, label': string, text: string, cents: ToCents, error: ParseError)
    requires TextUnder(header, row, label', text) && Amount(text, cents, error).Ok?
    ensures AmountUnder(header, row, label', Amount(text, cents, error).value, cents)
  {
    hide TextUnder;
  }

  /** The amounts of a row are given by five of its texts. */
  lemma AmountsAre(fields: seq<string>, cents: ToCents, error: ParseError)
    requires |fields| == COLUMNS
    ensures ReceiptOf(fields, cents, error).Ok? ==> forall k | 6 <= k < COLUMNS :: Amount(fields[k], cents, error).Ok?
    ensures (forall k | 6 <= k < COLUMNS :: Amount(fields[k], cents, error).Ok?) ==>
              ReceiptOf(fields, cents, error).Ok?
    ensures ReceiptOf(fields, cents, error).Err? ==> ReceiptOf(fields, cents, error) == Err(error)
  {
    hide Amount;
    AmountFails(fields[6], cents, error);
    AmountFails(fields[7], cents, error);
    AmountFails(fields[8], cents, error);
    AmountFails(fields[9], cents, error);
    AmountFails(fields[10], cents, error);
  }

  lemma AmountFails(text: string, cents: ToCents, error: ParseError)
    ensures Amount(text, cents, error).Err? <==> text != "" && cents(text).None?
    ensures Amount(text, cents, error).Err? ==> Amount(text, cents, error) == Err(error)
  {
  }

  lemma ReceiptStands(header: seq<string>, row: seq<string>, positions: seq<nat>, cents: ToCents, error: ParseError)
    requires Located(header, positions) && Complete(row, positions)
    requires ReceiptOf(Fields(row, positions), cents, error).Ok?
    ensures UnderLabels(header, row, ReceiptOf(Fields(row, positions), cents, error).value, cents)
  {
    hide TextUnder, AmountUnder, Fields, Complete, Amount;
    assert |positions| == COLUMNS;
    var fields := Fields(row, positions);
    hide Located;
    AmountsAre(fields, cents, error);
    forall k | 0 <= k < COLUMNS
      ensures TextUnder(header, row, LABELS[k], fields[k])
    {
      TextStands(header, row, positions, k);
    }
    forall k | 6 <= k < COLUMNS
      ensures AmountUnder(header, row, LABELS[k], Amount(fields[k], cents, error).value, cents)
    {
      AmountStands(header, row, LABELS[k], fields[k], cents, error);
    }
    LabelsAre();
  }

  lemma LabelsAre()
    ensures LABELS[0] == "代发部门" && LABELS[1] == "代发项目" && LABELS[2] == "代发用途" && LABELS[3] == "代发说明"
    ensures LABELS[4] == "开户银行" && LABELS[5] == "计税时间" && LABELS[6] == "应发金额" && LABELS[7] == "扣税金额"
    ensures LABELS[8] == "实发金额" && LABELS[9] == "存折金额" && LABELS[10] == "现金金额"
  {
  }

  /** The values of the receipts are those of their own rows. */
  ghost predicate Listed(header: seq<string>, rows: seq<Cells>, receipts: seq<Receipt>, cents: ToCents) {
    && |receipts| <= |rows|
    && forall i | 0 <= i < |receipts| :: rows[i].Some? && UnderLabels(header, rows[i].value, receipts[i], cents)
  }

  lemma ListedCons(
      header: seq<string>, rows: seq<Cells>, receipt: Receipt, receipts: seq<Receipt>, cents: ToCents)
    requires |rows| > 0 && rows[0].Some? && UnderLabels(header, rows[0].value, receipt, cents)
    requires Listed(header, rows[1..], receipts, cents)
    ensures Listed(header, rows, [receipt] + receipts, cents)
  {
    hide UnderLabels;
    forall i | 0 < i < |receipts| + 1
      ensures rows[i].Some? && UnderLabels(header, rows[i].value, ([receipt] + receipts)[i], cents)
    {
      assert rows[1..][i - 1] == rows[i];
    }
  }

  lemma {:induction false} ReceiptsStand(
      header: seq<string>, rows: seq<Cells>, positions: seq<nat>, index: nat, count: nat, cents: ToCents)
    requires Located(header, positions) && RowsFrom(rows, positions, index, count, cents).Ok?
    ensures Listed(header, rows, RowsFrom(rows, positions, index, count, cents).value, cents)
  {
    hide UnderLabels, Listed, Located, ReceiptOf, Fields, Complete;
    OneForEach(positions, header);
    if |rows| == 0 || !Complete(rows[0].value, positions) {
      NothingListed(header, rows, cents);
    } else {
      var row, error := rows[0].value, InvalidAmount(index, count);
      ReceiptStands(header, row, positions, cents, error);
      ReceiptsStand(header, rows[1..], positions, index, count + 1, cents);
      ListedCons(header, rows, ReceiptOf(Fields(row, positions), cents, error).value,
                 RowsFrom(rows[1..], positions, index, count + 1, cents).value, cents);
    }
  }

  lemma NothingListed(header: seq<string>, rows: seq<Cells>, cents: ToCents)
    ensures Listed(header, rows, [], cents)
  {
  }

  lemma OneForEach(positions: seq<nat>, header: seq<string>)
    requires Located(header, positions)
    ensures |positions| == COLUMNS
  {
  }

  // ---------------------------------------------------------------- which error

  /** The row has a cell for every column, and each amount that is not empty can be converted. */
  ghost predicate Readable(row: Cells, positions: seq<nat>, cents: ToCents)
    requires |positions| == COLUMNS
  {
    && row.Some? && (forall k | 0 <= k < COLUMNS :: positions[k] < |row.value|)
    && forall k | 6 <= k < COLUMNS ::
         Bounded(row.value[positions[k]]) == "" || cents(Bounded(row.value[positions[k]])).Some?
  }

  /** What becomes of rows of which the first `n` are readable and the next one, if there is one, is not. */
  ghost predicate Outcome(
      rows: seq<Cells>, positions: seq<nat>, index: nat, count: nat, n: nat, cents: ToCents, r: Receipts)
    requires |positions| == COLUMNS && n <= |rows|
  {
    var visited := if n < |rows| then n + 1 else n;
    if count + visited > MAX_RECEIPTS then r == Err(TooLarge)
    else if n == |rows| then r.Ok? && |r.value| == n
    else if rows[n].None? then r == Err(TooLarge)
    else if exists k | 0 <= k < COLUMNS :: positions[k] >= |rows[n].value| then
      if n + 1 == |rows| then r.Ok? && |r.value| == n else r == Err(UnrecognizedRow(index, count + n))
    else r == Err(InvalidAmount(index, count + n))
  }

  lemma ReadableExactly(row: Cells, positions: seq<nat>, cents: ToCents, error: ParseError)
    requires |positions| == COLUMNS && row.Some? && Complete(row.value, positions)
    ensures Readable(row, positions, cents) <==> ReceiptOf(Fields(row.value, positions), cents, error).Ok?
    ensures ReceiptOf(Fields(row.value, positions), cents, error).Err? ==>
              ReceiptOf(Fields(row.value, positions), cents, error) == Err(error)
  {
    hide ReceiptOf, Amount, Bounded;
    var fields := Fields(row.value, positions);
    AmountsAre(fields, cents, error);
    forall k | 6 <= k < COLUMNS
      ensures Amount(fields[k], cents, error).Ok? <==>
        Bounded(row.value[positions[k]]) == "" || cents(Bounded(row.value[positions[k]])).Some?
    {
      AmountFails(fields[k], cents, error);
    }
  }

  /**
   The rows before the first unreadable one count, the limit is met before a row is looked at, and that
   row decides.
   */
  lemma {:induction false} RowsExactly(
      rows: seq<Cells>, positions: seq<nat>, index: nat, count: nat, n: nat, cents: ToCents)
    requires |positions| == COLUMNS && count <= MAX_RECEIPTS && n <= |rows|
    requires forall i | 0 <= i < n :: Readable(rows[i], positions, cents)
    requires n < |rows| ==> !Readable(rows[n], positions, cents)
    ensures Outcome(rows, positions, index, count, n, cents, RowsFrom(rows, positions, index, count, cents))
    decreases n
  {
    hide ReceiptOf, Fields, Readable;
    if |rows| > 0 {
      if rows[0].Some? && Complete(rows[0].value, positions) {
        ReadableExactly(rows[0], positions, cents, InvalidAmount(index, count));
      }
      if n > 0 {
        ReadableIsComplete(rows[0], positions, cents);
        if count < MAX_RECEIPTS {
          assert forall i | 0 <= i < n - 1 :: rows[1..][i] == rows[i + 1];
          RowsExactly(rows[1..], positions, index, count + 1, n - 1, cents);
        }
      }
    }
  }

  lemma ReadableIsComplete(row: Cells, positions: seq<nat>, cents: ToCents)
    requires |positions| == COLUMNS && Readable(row, positions, cents)
    ensures row.Some? && Complete(row.value, positions)
  {
  }

  // ---------------------------------------------------------------- tables

  /**
   A table whose header is located parses, if it parses, to one receipt for each of its rows but
   perhaps the last, and each value of a receipt is that of its row's cell under its own label.
   */
  lemma ReceiptsAreUnderTheirLabels(table: Table, index: nat, cents: ToCents)
    requires TableResult(table, index, cents).Some? && TableResult(table, index, cents).value.Ok?
    ensures HeaderCells(table).Some? && table.Table?
    ensures Listed(HeaderCells(table).value, table.rows, TableResult(table, index, cents).value.value, cents)
  {
    hide RowsFrom, UnderLabels, Listed, FirstWithLabel, HeaderPositions;
    HeaderExactly(table);
    HeaderIsRead(table);
    ReceiptsStand(HeaderCells(table).value, table.rows, HeaderPositions(table).value, index, 0, cents);
  }

  lemma HeaderIsRead(table: Table)
    requires HeaderPositions(table).Some?
    ensures HeaderCells(table).Some? && table.Table?
  {
    hide PositionsOf;
  }

  // ---------------------------------------------------------------- documents

  /** The places of the tables with a located header, in document order. */
  function ReceiptPlaces(tables: seq<Table>): seq<nat> {
    if |tables| == 0 then []
    else
      var last := |tables| - 1;
      ReceiptPlaces(tables[..last]) + if HeaderPositions(tables[last]).Some? then [last] else []
  }

  lemma {:induction false} PlacesAre(tables: seq<Table>)
    ensures forall place :: place in ReceiptPlaces(tables) <==>
              0 <= place < |tables| && HeaderPositions(tables[place]).Some?
    ensures forall j, k | 0 <= j < k < |ReceiptPlaces(tables)| :: ReceiptPlaces(tables)[j] < ReceiptPlaces(tables)[k]
  {
    hide HeaderPositions;
    if |tables| > 0 {
      PlacesAre(tables[..|tables| - 1]);
      var before := ReceiptPlaces(tables[..|tables| - 1]);
      assert forall k | 0 <= k < |before| :: before[k] in before;
    }
  }

  lemma {:induction false} ReceiptTablesSnoc(tables: seq<Table>, last: Table)
    ensures ReceiptTables(tables + [last]) ==
            ReceiptTables(tables) + if HeaderPositions(last).Some? then [last] else []
  {
    hide HeaderPositions;
    if |tables| == 0 {
      assert tables + [last] == [last] && [last][1..] == [];
    } else {
      ReceiptTablesSnoc(tables[1..], last);
      assert (tables + [last])[1..] == tables[1..] + [last];
    }
  }

  lemma {:induction false} TablesAtPlaces(tables: seq<Table>)
    ensures |ReceiptTables(tables)| == |ReceiptPlaces(tables)|
    ensures forall k | 0 <= k < |ReceiptPlaces(tables)| ::
              ReceiptPlaces(tables)[k] < |tables| && ReceiptTables(tables)[k] == tables[ReceiptPlaces(tables)[k]]
  {
    hide HeaderPositions;
    if |tables| > 0 {
      var front, last := tables[..|tables| - 1], tables[|tables| - 1];
      TablesAtPlaces(front);
      ReceiptTablesSnoc(front, last);
      assert tables == front + [last];
    }
  }

  lemma {:induction false} SectionsStand(headings: seq<string>, tables: seq<Table>, index: nat, cents: ToCents)
    requires |headings| == |tables| && Sections(headings, tables, index, cents).Ok?
    ensures var months := Sections(headings, tables, index, cents).value;
      && |months| == |headings|
      && forall k | 0 <= k < |months| ::
           months[k].month == headings[k]
           && TableResult(tables[k], index + k, cents) == Some(Ok(months[k].receipts))
  {
    hide TableResult;
    if headings != [] {
      SectionsStand(headings[1..], tables[1..], index + 1, cents);
    }
  }

  /**
   A page parses, if it parses, to one month for each heading in order, each with the receipts of
   the table that stands at the same place among the tables with a located header.
   */
  lemma MonthsPairUp(headings: seq<string>, tables: seq<Table>, cents: ToCents)
    requires Document(headings, tables, cents).Ok?
    ensures var months, places := Document(headings, tables, cents).value, ReceiptPlaces(tables);
      && 1 <= |months| == |headings| == |places|
      && forall k | 0 <= k < |months| ::
           && places[k] < |tables| && months[k].month == headings[k]
           && TableResult(tables[places[k]], k, cents) == Some(Ok(months[k].receipts))
  {
    hide TableResult, ReceiptTables, HeaderPositions, ReceiptPlaces;
    TablesAtPlaces(tables);
    SectionsStand(headings, ReceiptTables(tables), 0, cents);
  }

  /** Section `k` is the first whose table is refused, for this reason. */
  ghost predicate RefusedAt(tables: seq<Table>, index: nat, cents: ToCents, k: nat, error: ParseError) {
    && k < |tables| && TableResult(tables[k], index + k, cents) == Some(Err(error))
    && forall j | 0 <= j < k ::
         TableResult(tables[j], index + j, cents).Some? && TableResult(tables[j], index + j, cents).value.Ok?
  }

  lemma {:induction false} SectionsFail(headings: seq<string>, tables: seq<Table>, index: nat, cents: ToCents)
      returns (k: nat)
    requires |headings| == |tables| && forall i | 0 <= i < |tables| :: HeaderPositions(tables[i]).Some?
    ensures Sections(headings, tables, index, cents).Err? ==>
              RefusedAt(tables, index, cents, k, Sections(headings, tables, index, cents).error)
  {
    hide HeaderPositions, RowsFrom;
    k := 0;
    if |headings| > 0 {
      assert HeaderPositions(tables[0]).Some?;
      if TableResult(tables[0], index, cents).value.Ok? {
        var rest := SectionsFail(headings[1..], tables[1..], index + 1, cents);
        k := rest + 1;
        assert forall j | 0 < j < |tables| :: tables[j] == tables[1..][j - 1];
      }
    }
  }

  /**
   Which error a page has: without headings and tables that there are no months, then their two
   counts, then that there are too many, and then that of the first table that is refused.
   */
  lemma DocumentFails(headings: seq<string>, tables: seq<Table>, cents: ToCents) returns (k: nat)
    ensures var r, located := Document(headings, tables, cents), |ReceiptPlaces(tables)|;
      if |headings| == 0 && located == 0 then r == Err(NoMonths)
      else if |headings| != located then r == Err(SectionCountMismatch(|headings|, located))
      else if |headings| > 512 then r == Err(TooLarge)
      else r.Err? ==> RefusedAt(ReceiptTables(tables), 0, cents, k, r.error)
  {
    hide HeaderPositions, TableResult, Sections;
    TablesAtPlaces(tables);
    PlacesAre(tables);
    k := 0;
    if |headings| == |ReceiptPlaces(tables)| {
      forall i | 0 <= i < |ReceiptTables(tables)|
        ensures HeaderPositions(ReceiptTables(tables)[i]).Some?
      {
        assert ReceiptPlaces(tables)[i] in ReceiptPlaces(tables);
      }
      k := SectionsFail(headings, ReceiptTables(tables), 0, cents);
    }
  }
}
