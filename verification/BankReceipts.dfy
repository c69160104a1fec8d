/**
 Payroll receipt tables: columns located by label, rows read through the located
 positions, and the proof that the order of the columns does not matter.

 A table comes as the texts of its cells, which `BankPages` reads from HTML.  The
 conversion of an amount text to exact cents is an arbitrary function.
 */
module BankReceipts {
  import opened Wrappers
  import opened Text
  import opened HtmlEntities

  const MAX_RECEIPTS: nat := 8192
  const MAX_MONTHS: nat := 512
  const MAX_TEXT_CHARS: nat := 512

  /** The header labels, in the order the columns are reported; the last five are amounts. */
  const LABELS: seq<string> := [
    "代发部门", "代发项目", "代发用途", "代发说明", "开户银行", "计税时间",
    "应发金额", "扣税金额", "实发金额", "存折金额", "现金金额"]

  const COLUMNS: nat := 11

  datatype ParseError =
    | UnrecognizedRow(table: nat, row: nat)
    | InvalidAmount(table: nat, row: nat)
    | MissingHeader(table: nat)
    | SectionCountMismatch(headings: nat, tables: nat)
    | NoMonths
    | TooLarge
    /** The scanner panics. */
    | Panicked

  /** The texts of one row's cells; `None` when their scan fails. */
  type Cells = Option<seq<string>>

  /** The first row's `th` and `td` cells, and the `td` cells of the rows after it. */
  datatype Table = Table(th: Cells, td: Cells, rows: seq<Cells>) | NoRows

  datatype Receipt = Receipt(
    department: string, project: string, usage: string, description: string, bank: string, time: string,
    total: Option<int>, deduction: Option<int>, actual: Option<int>, deposit: Option<int>, cash: Option<int>)

  type ToCents = string -> Option<int>

  // ---------------------------------------------------------------- the header

  /** A label with its white space taken out. */
  function Squeezed(words: seq<string>): string {
    if words == [] then "" else words[0] + Squeezed(words[1..])
  }

  function Label(text: string): string {
    Squeezed(Words(text))
  }

  /** The `td` cells stand in only when the `th` cells could not be read. */
  function HeaderCells(table: Table): Option<seq<string>> {
    match table
    case NoRows => None
    case Table(Some(cells), _, _) => Some(cells)
    case Table(None, Some(cells), _) => Some(cells)
    case _ => None
  }

  function Position(cells: seq<string>, wanted: string): (r: Option<nat>)
    ensures r.Some? ==> r.value < |cells| && Label(cells[r.value]) == wanted
    ensures r.Some? ==> forall i | 0 <= i < r.value :: Label(cells[i]) != wanted
    ensures r.None? ==> forall i | 0 <= i < |cells| :: Label(cells[i]) != wanted
  {
    if cells == [] then None
    else if Label(cells[0]) == wanted then Some(0)
    else
      var r := Position(cells[1..], wanted);
      assert forall i | 0 < i < |cells| :: cells[i] == cells[1..][i - 1];
      if r.None? then None else Some(r.value + 1)
  }

  function PositionsOf(cells: seq<string>, labels: seq<string>): (r: Option<seq<nat>>)
    ensures r.Some? ==> |r.value| == |labels|
    ensures r.Some? ==> forall k | 0 <= k < |labels| :: Position(cells, labels[k]) == Some(r.value[k])
    ensures r.None? ==> exists k :: 0 <= k < |labels| && Position(cells, labels[k]).None?
  {
    if labels == [] then Some([])
    else
      match (Position(cells, labels[0]), PositionsOf(cells, labels[1..]))
      case (Some(first), Some(rest)) => Some([first] + rest)
      case (None, _) => None
      case (_, None) =>
        var k :| 0 <= k < |labels[1..]| && Position(cells, labels[1..][k]).None?;
        assert labels[k + 1] == labels[1..][k];
        None
  }

  /** `receipt_header_positions`. */
  function HeaderPositions(table: Table): (r: Option<seq<nat>>)
    ensures r.Some? ==> |r.value| == COLUMNS
  {
    match HeaderCells(table)
    case None => None
    case Some(cells) => if cells == [] then None else PositionsOf(cells, LABELS)
  }

  predicate HasLabel(cells: seq<string>, wanted: string) {
    exists i :: 0 <= i < |cells| && Label(cells[i]) == wanted
  }

  /** The first cell of the header with that label. */
  predicate FirstWithLabel(cells: seq<string>, wanted: string, column: nat) {
    column < |cells| && Label(cells[column]) == wanted && forall i | 0 <= i < column :: Label(cells[i]) != wanted
  }

  /** Column by column: each label's first cell, when the header was read and has every label; nothing otherwise. */
  lemma HeaderExactly(table: Table)
    ensures HeaderPositions(table).Some? <==>
      HeaderCells(table).Some?
      && forall k | 0 <= k < COLUMNS :: HasLabel(HeaderCells(table).value, LABELS[k])
    ensures HeaderPositions(table).Some? ==>
      forall k | 0 <= k < COLUMNS ::
          FirstWithLabel(HeaderCells(table).value, LABELS[k], HeaderPositions(table).value[k])
  {
    hide Position, PositionsOf, Label, FirstWithLabel, HasLabel;
    if HeaderCells(table).Some? {
      var cells := HeaderCells(table).value;
      LocatedExactly(cells);
      EmptyHasNoLabel(cells, LABELS[0]);
      forall k | 0 <= k < COLUMNS
        ensures Position(cells, LABELS[k]).Some? <==> HasLabel(cells, LABELS[k])
        ensures Position(cells, LABELS[k]).Some? ==> FirstWithLabel(cells, LABELS[k], Position(cells, LABELS[k]).value)
      {
        PositionExactly(cells, LABELS[k]);
      }
    }
  }

  /** A header whose `th` cells could be read but are none is not located, whatever its `td` cells say. */
  lemma CellHeaderIsNotLocated(td: Cells, rows: seq<Cells>)
    ensures HeaderPositions(Table(Some([]), td, rows)) == None
  {
  }

  lemma EmptyHasNoLabel(cells: seq<string>, wanted: string)
    ensures HasLabel(cells, wanted) ==> cells != []
  {
  }

  lemma PositionExactly(cells: seq<string>, wanted: string)
    ensures Position(cells, wanted).Some? <==> HasLabel(cells, wanted)
    ensures Position(cells, wanted).Some? ==> FirstWithLabel(cells, wanted, Position(cells, wanted).value)
  {
    hide Position, Label;
  }

  // ---------------------------------------------------------------- the rows

  function Bounded(text: string): string {
    var trimmed := Trim(text);
    if |trimmed| <= MAX_TEXT_CHARS then trimmed else trimmed[..MAX_TEXT_CHARS]
  }

  predicate Complete(cells: seq<string>, positions: seq<nat>) {
    forall k | 0 <= k < |positions| :: positions[k] < |cells|
  }

  /** The cell of each column, bounded. */
  function Fields(cells: seq<string>, positions: seq<nat>): (fields: seq<string>)
    requires Complete(cells, positions)
    ensures |fields| == |positions|
  {
    seq(|positions|, k requires 0 <= k < |positions| => Bounded(cells[positions[k]]))
  }

  /** An empty amount is absent; a text that is no amount is an error. */
  function Amount(raw: string, cents: ToCents, error: ParseError): Result<Option<int>, ParseError> {
    if raw == "" then Ok(None)
    else if cents(raw).None? then Err(error)
    else Ok(cents(raw))
  }

  function ReceiptOf(fields: seq<string>, cents: ToCents, error: ParseError): Result<Receipt, ParseError>
    requires |fields| == COLUMNS
  {
    var total :- Amount(fields[6], cents, error);
    var deduction :- Amount(fields[7], cents, error);
    var actual :- Amount(fields[8], cents, error);
    var deposit :- Amount(fields[9], cents, error);
    var cash :- Amount(fields[10], cents, error);
    Ok(Receipt(fields[0], fields[1], fields[2], fields[3], fields[4], fields[5], total, deduction, actual, deposit,
        cash))
  }

  type Receipts = Result<seq<Receipt>, ParseError>

  /** The rows that are left, after `count` receipts. */
  function RowsFrom(rows: seq<Cells>, positions: seq<nat>, index: nat, count: nat, cents: ToCents): Receipts
    requires |positions| == COLUMNS
  {
    if rows == [] then Ok([])
    else if count >= MAX_RECEIPTS then Err(TooLarge)
    else
      match rows[0]
      case None => Err(TooLarge)
      case Some(cells) =>
        if !Complete(cells, positions) then
          if |rows| == 1 then Ok([]) else Err(UnrecognizedRow(index, count))
        else
          var receipt :- ReceiptOf(Fields(cells, positions), cents, InvalidAmount(index, count));
          var rest :- RowsFrom(rows[1..], positions, index, count + 1, cents);
          Ok([receipt] + rest)
  }

  function PrependReceipts(receipts: seq<Receipt>, r: Receipts): Receipts {
    match r
    case Err(error) => Err(error)
    case Ok(rest) => Ok(receipts + rest)
  }

  /** One round of the row loop, after `receipts`. */
  function RowsRound(
        rows: seq<Cells>, positions: seq<nat>, index: nat, i: nat, receipts: seq<Receipt>, cents: ToCents): Receipts
    requires |positions| == COLUMNS && i < |rows|
  {
    match rows[i]
    case None => Err(TooLarge)
    case Some(cells) =>
      if !Complete(cells, positions) then
        if i + 1 == |rows| then Ok(receipts) else Err(UnrecognizedRow(index, |receipts|))
      else
        match ReceiptOf(Fields(cells, positions), cents, InvalidAmount(index, |receipts|))
        case Err(error) => Err(error)
        case Ok(receipt) =>
          PrependReceipts(receipts + [receipt], RowsFrom(rows[i + 1..], positions, index, |receipts| + 1, cents))
  }

  lemma RowsRoundIsRows(
        rows: seq<Cells>, positions: seq<nat>, index: nat, i: nat, receipts: seq<Receipt>, cents: ToCents)
    requires |positions| == COLUMNS && i < |rows| && |receipts| < MAX_RECEIPTS
    ensures PrependReceipts(receipts, RowsFrom(rows[i..], positions, index, |receipts|, cents))
         == RowsRound(rows, positions, index, i, receipts, cents)
  {
    hide ReceiptOf, Complete, Fields;
    assert rows[i..][1..] == rows[i + 1..];
    assert receipts + [] == receipts;
    var rest := RowsFrom(rows[i + 1..], positions, index, |receipts| + 1, cents);
    if rows[i].Some? && Complete(rows[i].value, positions) {
      var r := ReceiptOf(Fields(rows[i].value, positions), cents, InvalidAmount(index, |receipts|));
      assert r.Ok? && rest.Ok? ==> receipts + ([r.value] + rest.value) == receipts + [r.value] + rest.value;
    }
  }

  /** `parse_receipt_rows`; the header row comes before `rows`. */
  method ParseReceiptRows(rows: seq<Cells>, index: nat, positions: seq<nat>, cents: ToCents) returns (r: Receipts)
    requires |positions| == COLUMNS
    ensures r == RowsFrom(rows, positions, index, 0, cents)
    ensures r.Ok? ==> |r.value| <= MAX_RECEIPTS && |r.value| <= |rows|
  {
    hide RowsFrom, ReceiptOf, Fields, Complete;
    var receipts: seq<Receipt> := [];
    assert rows[0..] == rows;
    PrependNoReceipts(RowsFrom(rows, positions, index, 0, cents));
    for position := 0 to |rows|
      invariant |receipts| == position && |receipts| <= MAX_RECEIPTS
      invariant RowsFrom(rows, positions, index, 0, cents) ==
        PrependReceipts(receipts, RowsFrom(rows[position..], positions, index, |receipts|, cents))
    {
      if |receipts| >= MAX_RECEIPTS {
        TooManyRows(rows[position..], positions, index, |receipts|, cents);
        return Err(TooLarge);
      }
      RowsRoundIsRows(rows, positions, index, position, receipts, cents);
      if rows[position].None? {
        return Err(TooLarge);
      }
      var cells := rows[position].value;
      if !Complete(cells, positions) {
        if position + 1 == |rows| {
          return Ok(receipts);
        }
        return Err(UnrecognizedRow(index, |receipts|));
      }
      var receipt := ReceiptOf(Fields(cells, positions), cents, InvalidAmount(index, |receipts|));
      if receipt.Err? {
        return Err(receipt.error);
      }
      receipts := receipts + [receipt.value];
    }
    NoMoreRows(positions, index, receipts, cents);
    assert rows[|rows|..] == [];
    return Ok(receipts);
  }

  lemma PrependNoReceipts(r: Receipts)
    ensures PrependReceipts([], r) == r
  {
    assert r.Ok? ==> [] + r.value == r.value;
  }

  lemma NoMoreRows(positions: seq<nat>, index: nat, receipts: seq<Receipt>, cents: ToCents)
    requires |positions| == COLUMNS
    ensures PrependReceipts(receipts, RowsFrom([], positions, index, |receipts|, cents)) == Ok(receipts)
  {
    assert receipts + [] == receipts;
  }

  lemma TooManyRows(rows: seq<Cells>, positions: seq<nat>, index: nat, count: nat, cents: ToCents)
    requires |positions| == COLUMNS && rows != [] && count >= MAX_RECEIPTS
    ensures RowsFrom(rows, positions, index, count, cents) == Err(TooLarge)
  {
  }

  // ---------------------------------------------------------------- permuted columns

  predicate Permutation(perm: seq<nat>) {
    && (forall k | 0 <= k < |perm| :: perm[k] < |perm|)
    && (forall j, k | 0 <= j < k < |perm| :: perm[j] != perm[k])
  }

  /** The first `|perm|` cells rearranged; the cells after them stay. */
  function Permuted<Cell>(cells: seq<Cell>, perm: seq<nat>): seq<Cell>
    requires |perm| <= |cells| && Permutation(perm)
  {
    seq(|perm|, k requires 0 <= k < |perm| => cells[perm[k]]) + cells[|perm|..]
  }

  /** No expected label heads two columns. */
  predicate LabelsOccurOnce(cells: seq<string>) {
    forall i, j | 0 <= i < j < |cells| && Label(cells[i]) == Label(cells[j]) :: Label(cells[i]) !in LABELS
  }

  /** A row too narrow to be attributed may be anything; a full row is rearranged like the header. */
  ghost predicate RowRearranged(row: Cells, other: Cells, perm: seq<nat>)
    requires Permutation(perm)
  {
    match (row, other)
    case (None, None) => true
    case (Some(a), Some(b)) =>
      || (|a| < COLUMNS && |b| < COLUMNS)
      || (|perm| <= |a| && b == Permuted(a, perm))
    case _ => false
  }

  ghost predicate Rearranged(table: Table, other: Table, perm: seq<nat>) {
    && Permutation(perm)
    && HeaderCells(table).Some? && HeaderCells(other).Some?
    && |perm| == |HeaderCells(table).value|
    && HeaderCells(other).value == Permuted(HeaderCells(table).value, perm)
    && |table.rows| == |other.rows|
    && forall i | 0 <= i < |table.rows| :: RowRearranged(table.rows[i], other.rows[i], perm)
  }

  lemma LabelsAreDistinct()
    ensures |LABELS| == COLUMNS
    ensures forall j, k | 0 <= j < k < COLUMNS :: LABELS[j] != LABELS[k]
  {
    // The labels differ in one of their first, third and fourth characters.
    forall j, k | 0 <= j < k < COLUMNS
      ensures LABELS[j] != LABELS[k]
    {
      assert LABELS[j][0] != LABELS[k][0] || LABELS[j][2] != LABELS[k][2];
    }
  }

  /** More distinct numbers than `n` cannot all lie below `n`. */
  lemma {:induction false} Pigeonhole(values: seq<nat>, n: nat)
    requires forall j, k | 0 <= j < k < |values| :: values[j] != values[k]
    requires forall k | 0 <= k < |values| :: values[k] < n
    ensures |values| <= n
    decreases n
  {
    if values == [] {
      return;
    }
    assert 0 <= values[0] < n;
    if k :| 0 <= k < |values| && values[k] == n - 1 {
      var rest := values[..k] + values[k + 1..];
      forall i | 0 <= i < |rest|
        ensures rest[i] < n - 1 && rest[i] == values[if i < k then i else i + 1]
      {
      }
      Pigeonhole(rest, n - 1);
    } else {
      Pigeonhole(values, n - 1);
    }
  }

  /** The located columns are distinct. */
  lemma PositionsAreDistinct(cells: seq<string>, positions: seq<nat>)
    requires PositionsOf(cells, LABELS) == Some(positions)
    ensures forall j, k | 0 <= j < k < COLUMNS :: positions[j] != positions[k]
    ensures Complete(cells, positions)
  {
    hide Position, PositionsOf, Label;
    LabelsAreDistinct();
    forall k | 0 <= k < COLUMNS
      ensures positions[k] < |cells| && Label(cells[positions[k]]) == LABELS[k]
    {
      assert Position(cells, LABELS[k]) == Some(positions[k]);
    }
  }

  /** A row of fewer than eleven cells can never be attributed. */
  lemma NarrowRowIsIncomplete(cells: seq<string>, positions: seq<nat>, header: seq<string>)
    requires PositionsOf(header, LABELS) == Some(positions) && |cells| < COLUMNS
    ensures !Complete(cells, positions)
  {
    hide Position, PositionsOf, Label;
    PositionsAreDistinct(header, positions);
    assert |positions| == COLUMNS by {
      LabelsAreDistinct();
    }
    if Complete(cells, positions) {
      Pigeonhole(positions, |cells|);
    }
  }

  /** A position found once is found at the rearranged place. */
  lemma PositionMoves(cells: seq<string>, perm: seq<nat>, wanted: string)
    requires Permutation(perm) && |perm| == |cells| && LabelsOccurOnce(cells) && wanted in LABELS
    ensures
      var before, after := Position(cells, wanted), Position(Permuted(cells, perm), wanted);
      && (before.Some? <==> after.Some?)
      && (after.Some? ==> after.value < |perm| && perm[after.value] == before.value)
  {
    hide Label, Position;
    var other := Permuted(cells, perm);
    var before, after := Position(cells, wanted), Position(other, wanted);
    assert |other| == |perm|;
    if before.Some? {
      var k := Preimage(perm, before.value);
      assert other[k] == cells[before.value];
    }
    if after.Some? {
      var a, b := perm[after.value], before.value;
      assert Label(cells[a]) == wanted;
      assert Label(cells[a]) == Label(cells[b]);
    }
  }

  lemma Preimage(perm: seq<nat>, value: nat) returns (k: nat)
    requires Permutation(perm) && value < |perm|
    ensures k < |perm| && perm[k] == value
  {
    if forall i | 0 <= i < |perm| :: perm[i] != value {
      // Then the values other than `value` number one fewer than the places.
      var moved := seq(|perm|, i requires 0 <= i < |perm| => if perm[i] > value then (perm[i] - 1) as nat else perm[i]);
      Pigeonhole(moved, |perm| - 1);
      assert false;
    }
    k :| 0 <= k < |perm| && perm[k] == value;
  }

  /** A header is located exactly when every label heads a column. */
  lemma LocatedExactly(cells: seq<string>)
    ensures PositionsOf(cells, LABELS).Some? <==> forall k | 0 <= k < COLUMNS :: Position(cells, LABELS[k]).Some?
    ensures PositionsOf(cells, LABELS).Some? ==>
              |PositionsOf(cells, LABELS).value| == COLUMNS
              && forall k | 0 <= k < COLUMNS :: Position(cells, LABELS[k]) == Some(PositionsOf(cells, LABELS).value[k])
  {
    hide Position, PositionsOf, Label;
    LabelsAreDistinct();
  }

  /** Both headers are found or neither is, and the positions correspond. */
  lemma HeadersCorrespond(cells: seq<string>, perm: seq<nat>)
    requires Permutation(perm) && |perm| == |cells| && LabelsOccurOnce(cells)
    ensures
      var before, after := PositionsOf(cells, LABELS), PositionsOf(Permuted(cells, perm), LABELS);
      && (before.Some? <==> after.Some?)
      && (before.Some? ==>
           forall k | 0 <= k < COLUMNS :: after.value[k] < |perm| && perm[after.value[k]] == before.value[k])
  {
    hide Position, PositionsOf, Label, Permuted, Permutation, LabelsOccurOnce;
    var other := Permuted(cells, perm);
    LabelsAreDistinct();
    LocatedExactly(cells);
    LocatedExactly(other);
    forall k | 0 <= k < COLUMNS
      ensures Position(cells, LABELS[k]).Some? <==> Position(other, LABELS[k]).Some?
      ensures Position(other, LABELS[k]).Some? ==>
        Position(other, LABELS[k]).value < |perm| &&
            perm[Position(other, LABELS[k]).value] == Position(cells, LABELS[k]).value
    {
      PositionMoves(cells, perm, LABELS[k]);
    }
  }

  /** A rearranged row is attributed alike and yields the same fields. */
  lemma RowsCorrespond(row: seq<string>, other: seq<string>, perm: seq<nat>, positions: seq<nat>, moved: seq<nat>)
    requires Permutation(perm) && |positions| == |moved| == COLUMNS
    requires forall k | 0 <= k < COLUMNS :: moved[k] < |perm| && perm[moved[k]] == positions[k]
    requires |perm| <= |row| && other == Permuted(row, perm)
    ensures Complete(row, positions) && Complete(other, moved)
    ensures Fields(row, positions) == Fields(other, moved)
  {
    forall k | 0 <= k < COLUMNS
      ensures positions[k] < |row| && moved[k] < |other| && row[positions[k]] == other[moved[k]]
    {
    }
  }

  /** What the row loop takes of one row: its fields, or that it cannot be attributed. */
  function FieldsIfComplete(row: seq<string>, positions: seq<nat>): Option<seq<string>> {
    if Complete(row, positions) then Some(Fields(row, positions)) else None
  }

  lemma OneRowCorresponds(
        row: Cells, other: Cells, perm: seq<nat>, header: seq<string>, positions: seq<nat>, moved: seq<nat>)
    requires Permutation(perm) && |perm| == |header|
    requires PositionsOf(header, LABELS) == Some(positions) &&
            PositionsOf(Permuted(header, perm), LABELS) == Some(moved)
    requires |positions| == |moved| == COLUMNS
    requires forall k | 0 <= k < COLUMNS :: moved[k] < |perm| && perm[moved[k]] == positions[k]
    requires RowRearranged(row, other, perm)
    ensures row.None? ==> other == row
    ensures row.Some? ==> other.Some? && FieldsIfComplete(row.value, positions) == FieldsIfComplete(other.value, moved)
  {
    hide PositionsOf, Complete, Fields, Permutation, Permuted;
    if row.Some? {
      var a, b := row.value, other.value;
      if |a| < COLUMNS && |b| < COLUMNS {
        NarrowRowIsIncomplete(a, positions, header);
        NarrowRowIsIncomplete(b, moved, Permuted(header, perm));
      } else {
        RowsCorrespond(a, b, perm, positions, moved);
      }
    }
  }

  /** The row loop looks at a row only through its fields. */
  lemma RowsFromFields(
      rows: seq<Cells>, others: seq<Cells>, positions: seq<nat>, moved: seq<nat>, index: nat, count: nat,
          cents: ToCents)
    requires |positions| == |moved| == COLUMNS && |rows| == |others| > 0
    requires rows[0].None? ==> others[0] == rows[0]
    requires rows[0].Some? ==> others[0].Some?
    requires rows[0].Some? ==>
      FieldsIfComplete(rows[0].value, positions) == FieldsIfComplete(others[0].value, moved)
    requires RowsFrom(rows[1..], positions, index, count + 1, cents) ==
            RowsFrom(others[1..], moved, index, count + 1, cents)
    ensures RowsFrom(rows, positions, index, count, cents) == RowsFrom(others, moved, index, count, cents)
  {
    hide ReceiptOf, Complete, Fields;
  }

  lemma {:induction false} RowListsCorrespond(
      rows: seq<Cells>, others: seq<Cells>, perm: seq<nat>, header: seq<string>, positions: seq<nat>, moved: seq<nat>,
      index: nat, count: nat, cents: ToCents)
    requires Permutation(perm) && |perm| == |header|
    requires PositionsOf(header, LABELS) == Some(positions) &&
            PositionsOf(Permuted(header, perm), LABELS) == Some(moved)
    requires |positions| == |moved| == COLUMNS
    requires forall k | 0 <= k < COLUMNS :: moved[k] < |perm| && perm[moved[k]] == positions[k]
    requires |rows| == |others| && forall i | 0 <= i < |rows| :: RowRearranged(rows[i], others[i], perm)
    ensures RowsFrom(rows, positions, index, count, cents) == RowsFrom(others, moved, index, count, cents)
  {
    hide PositionsOf, Permutation, Permuted, RowRearranged, FieldsIfComplete, RowsFrom;
    if |rows| > 0 {
      OneRowCorresponds(rows[0], others[0], perm, header, positions, moved);
      RowListsCorrespond(rows[1..], others[1..], perm, header, positions, moved, index, count + 1, cents);
      RowsFromFields(rows, others, positions, moved, index, count, cents);
    } else {
      RowsFromNothing(rows, others, positions, moved, index, count, cents);
    }
  }

  lemma RowsFromNothing(
      rows: seq<Cells>, others: seq<Cells>, positions: seq<nat>, moved: seq<nat>, index: nat, count: nat,
          cents: ToCents)
    requires |positions| == |moved| == COLUMNS && |rows| == |others| == 0
    ensures RowsFrom(rows, positions, index, count, cents) == RowsFrom(others, moved, index, count, cents)
  {
  }

  /** What a table parses to: no header, or its receipts. */
  function TableResult(table: Table, index: nat, cents: ToCents): Option<Receipts> {
    match HeaderPositions(table)
    case None => None
    case Some(positions) => Some(RowsFrom(table.rows, positions, index, 0, cents))
  }

  /**
   The order of the columns does not matter: one permutation applied to the header
   and to every full row leaves the result, receipts or error, unchanged.
   */
  lemma ColumnOrderDoesNotMatter(table: Table, other: Table, perm: seq<nat>, index: nat, cents: ToCents)
    requires Rearranged(table, other, perm) && LabelsOccurOnce(HeaderCells(table).value)
    ensures TableResult(table, index, cents) == TableResult(other, index, cents)
  {
    hide PositionsOf, LabelsOccurOnce, RowsFrom, RowRearranged;
    LabelsAreDistinct();
    var header := HeaderCells(table).value;
    HeadersCorrespond(header, perm);
    assert |Permuted(header, perm)| == |header|;
    var positions, moved := PositionsOf(header, LABELS), PositionsOf(Permuted(header, perm), LABELS);
    if header != [] && positions.Some? {
      RowListsCorrespond(table.rows, other.rows, perm, header, positions.value, moved.value, index, 0, cents);
    }
  }

  // ---------------------------------------------------------------- the document

  datatype Month = Month(month: string, receipts: seq<Receipt>)

  function ReceiptTables(tables: seq<Table>): seq<Table> {
    if tables == [] then []
    else if HeaderPositions(tables[0]).Some? then [tables[0]] + ReceiptTables(tables[1..])
    else ReceiptTables(tables[1..])
  }

  function Sections(
        headings: seq<string>, tables: seq<Table>, index: nat, cents: ToCents): Result<seq<Month>, ParseError>
    requires |headings| == |tables|
  {
    if headings == [] then Ok([])
    else
      match TableResult(tables[0], index, cents)
      case None => Err(MissingHeader(index))
      case Some(parsed) =>
        var receipts :- parsed;
        var rest :- Sections(headings[1..], tables[1..], index + 1, cents);
        Ok([Month(headings[0], receipts)] + rest)
  }

  /** `parse_bank_receipts_html`, on the month headings and the tables of the page. */
  function Document(headings: seq<string>, tables: seq<Table>, cents: ToCents): Result<seq<Month>, ParseError> {
    var receiptTables := ReceiptTables(tables);
    if headings == [] && receiptTables == [] then Err(NoMonths)
    else if |headings| != |receiptTables| then Err(SectionCountMismatch(|headings|, |receiptTables|))
    else if |headings| > MAX_MONTHS then Err(TooLarge)
    else Sections(headings, receiptTables, 0, cents)
  }

  method ParseReceipts(
        headings: seq<string>, tables: seq<Table>, cents: ToCents) returns (r: Result<seq<Month>, ParseError>)
    ensures r == Document(headings, tables, cents)
    ensures r != Err(MissingHeader(0)) && (r.Err? ==> !r.error.MissingHeader?)
    ensures r.Ok? ==> 1 <= |r.value| == |headings| <= MAX_MONTHS
  {
    hide HeaderPositions, RowsFrom;
    var receiptTables: seq<Table> := [];
    for i := 0 to |tables|
      invariant ReceiptTables(tables) == receiptTables + ReceiptTables(tables[i..])
      invariant forall k | 0 <= k < |receiptTables| :: HeaderPositions(receiptTables[k]).Some?
    {
      assert tables[i..][1..] == tables[i + 1..];
      var located := HeaderPositions(tables[i]);
      if located.Some? {
        receiptTables := receiptTables + [tables[i]];
      }
    }
    assert tables[|tables|..] == [] && receiptTables + [] == receiptTables;
    if headings == [] && receiptTables == [] {
      return Err(NoMonths);
    }
    if |headings| != |receiptTables| {
      return Err(SectionCountMismatch(|headings|, |receiptTables|));
    }
    if |headings| > MAX_MONTHS {
      return Err(TooLarge);
    }
    r := ParseSections(headings, receiptTables, cents);
  }

  method ParseSections(
        headings: seq<string>, tables: seq<Table>, cents: ToCents) returns (r: Result<seq<Month>, ParseError>)
    requires |headings| == |tables| && forall k | 0 <= k < |tables| :: HeaderPositions(tables[k]).Some?
    ensures r == Sections(headings, tables, 0, cents)
    ensures r.Err? ==> !r.error.MissingHeader?
    ensures r.Ok? ==> |r.value| == |headings|
  {
    hide HeaderPositions, RowsFrom, Sections;
    var months: seq<Month> := [];
    assert headings[0..] == headings && tables[0..] == tables;
    PrependNoSections(Sections(headings, tables, 0, cents));
    for index := 0 to |headings|
      invariant |months| == index
      invariant Sections(headings, tables, 0, cents) ==
        PrependSections(months, Sections(headings[index..], tables[index..], index, cents))
    {
      SectionsRound(headings, tables, index, months, cents);
      var positions := HeaderPositions(tables[index]);
      var receipts := ParseReceiptRows(tables[index].rows, index, positions.value, cents);
      if receipts.Err? {
        RowErrors(tables[index].rows, positions.value, index, 0, cents);
        return Err(receipts.error);
      }
      months := months + [Month(headings[index], receipts.value)];
    }
    NoMoreSections(months, cents);
    assert headings[|headings|..] == [] && tables[|headings|..] == [];
    return Ok(months);
  }

  function PrependSections(months: seq<Month>, r: Result<seq<Month>, ParseError>): Result<seq<Month>, ParseError> {
    match r
    case Err(error) => Err(error)
    case Ok(rest) => Ok(months + rest)
  }

  lemma PrependNoSections(r: Result<seq<Month>, ParseError>)
    ensures PrependSections([], r) == r
  {
    assert r.Ok? ==> [] + r.value == r.value;
  }

  lemma NoMoreSections(months: seq<Month>, cents: ToCents)
    ensures PrependSections(months, Sections([], [], |months|, cents)) == Ok(months)
  {
    assert months + [] == months;
  }

  lemma SectionsRound(headings: seq<string>, tables: seq<Table>, index: nat, months: seq<Month>, cents: ToCents)
    requires |headings| == |tables| && index < |headings| && HeaderPositions(tables[index]).Some?
    ensures !tables[index].NoRows?
    ensures
      var here := PrependSections(months, Sections(headings[index..], tables[index..], index, cents));
      var parsed := RowsFrom(tables[index].rows, HeaderPositions(tables[index]).value, index, 0, cents);
      && (parsed.Err? ==> here == Err(parsed.error))
      && (parsed.Ok? ==>
            here == PrependSections(months + [Month(headings[index], parsed.value)],
                                    Sections(headings[index + 1..], tables[index + 1..], index + 1, cents)))
  {
    hide RowsFrom, PositionsOf;
    assert headings[index..][1..] == headings[index + 1..] && tables[index..][1..] == tables[index + 1..];
    var parsed := RowsFrom(tables[index].rows, HeaderPositions(tables[index]).value, index, 0, cents);
    var rest := Sections(headings[index + 1..], tables[index + 1..], index + 1, cents);
    assert parsed.Ok? && rest.Ok? ==>
        months + ([Month(headings[index], parsed.value)] + rest.value) ==
            months + [Month(headings[index], parsed.value)] + rest.value;
  }

  lemma ReceiptError(fields: seq<string>, cents: ToCents, error: ParseError)
    requires |fields| == COLUMNS
    ensures ReceiptOf(fields, cents, error).Err? ==> ReceiptOf(fields, cents, error).error == error
  {
  }

  lemma {:induction false} RowErrors(rows: seq<Cells>, positions: seq<nat>, index: nat, count: nat, cents: ToCents)
    requires |positions| == COLUMNS
    ensures var r := RowsFrom(rows, positions, index, count, cents);
      r.Err? ==> !r.error.MissingHeader?
  {
    hide ReceiptOf, Complete, Fields;
    if rows != [] {
      RowErrors(rows[1..], positions, index, count + 1, cents);
      if rows[0].Some? && Complete(rows[0].value, positions) {
        ReceiptError(Fields(rows[0].value, positions), cents, InvalidAmount(index, count));
      }
    }
  }

  // ---------------------------------------------------------------- whole documents

  ghost predicate ReorderedBy(table: Table, other: Table, perm: seq<nat>) {
    Rearranged(table, other, perm) && LabelsOccurOnce(HeaderCells(table).value)
  }

  /** The same table, or the same table with its columns in another order. */
  ghost predicate SameUpToColumnOrder(table: Table, other: Table) {
    table == other || exists perm :: ReorderedBy(table, other, perm)
  }

  lemma TableResultKept(table: Table, other: Table, cents: ToCents)
    requires SameUpToColumnOrder(table, other)
    ensures forall index: nat :: TableResult(table, index, cents) == TableResult(other, index, cents)
    ensures HeaderPositions(table).Some? <==> HeaderPositions(other).Some?
  {
    hide HeaderPositions, RowsFrom, LabelsOccurOnce;
    if table != other {
      var perm :| ReorderedBy(table, other, perm);
      forall index: nat
        ensures TableResult(table, index, cents) == TableResult(other, index, cents)
      {
        ColumnOrderDoesNotMatter(table, other, perm, index, cents);
      }
      assert TableResult(table, 0, cents) == TableResult(other, 0, cents);
    }
  }

  lemma {:induction false} ReceiptTablesKept(tables: seq<Table>, others: seq<Table>, cents: ToCents)
    requires |tables| == |others| && forall i | 0 <= i < |tables| :: SameUpToColumnOrder(tables[i], others[i])
    ensures |ReceiptTables(tables)| == |ReceiptTables(others)|
    ensures forall i, index: nat | 0 <= i < |ReceiptTables(tables)| ::
              TableResult(ReceiptTables(tables)[i], index, cents) == TableResult(ReceiptTables(others)[i], index, cents)
  {
    hide HeaderPositions, TableResult, SameUpToColumnOrder;
    if tables != [] {
      ReceiptTablesKept(tables[1..], others[1..], cents);
      TableResultKept(tables[0], others[0], cents);
    }
  }

  lemma {:induction false} SectionsKept(
        headings: seq<string>, tables: seq<Table>, others: seq<Table>, index: nat, cents: ToCents)
    requires |headings| == |tables| == |others|
    requires forall i, at: nat | 0 <= i < |tables| ::
            TableResult(tables[i], at, cents) == TableResult(others[i], at, cents)
    ensures Sections(headings, tables, index, cents) == Sections(headings, others, index, cents)
  {
    hide TableResult;
    if headings != [] {
      assert TableResult(tables[0], index, cents) == TableResult(others[0], index, cents);
      forall i, at: nat | 0 <= i < |tables[1..]|
        ensures TableResult(tables[1..][i], at, cents) == TableResult(others[1..][i], at, cents)
      {
        assert TableResult(tables[i + 1], at, cents) == TableResult(others[i + 1], at, cents);
      }
      SectionsKept(headings[1..], tables[1..], others[1..], index + 1, cents);
    }
  }

  /** A page may reorder the columns of each of its tables, each in its own way. */
  lemma DocumentColumnOrderDoesNotMatter(headings: seq<string>, tables: seq<Table>, others: seq<Table>, cents: ToCents)
    requires |tables| == |others| && forall i | 0 <= i < |tables| :: SameUpToColumnOrder(tables[i], others[i])
    ensures Document(headings, tables, cents) == Document(headings, others, cents)
  {
    hide SameUpToColumnOrder, TableResult, Sections, ReceiptTables;
    ReceiptTablesKept(tables, others, cents);
    if |headings| == |ReceiptTables(tables)| {
      SectionsKept(headings, ReceiptTables(tables), ReceiptTables(others), 0, cents);
    }
  }
}
