/**
 The payroll years: which option values are kept, how they are batched, what each
 batch sends, and how the ledger read puts the answers together.
 */
module BankYears {
  import opened Wrappers
  import opened Text
  import opened PercentCoding
  import HtmlClose
  import HtmlElements
  import Utf8

  const MAX_YEARS_PER_BATCH: nat := 4
  const MAX_YEAR_BATCHES: nat := 24
  const MAX_YEARS: nat := 96
  const MAX_MONTHS: nat := 512
  const MAX_YEAR_BYTES: nat := 32
  const GENERATIONS: nat := 0x1_0000_0000_0000_0000

  datatype BankError =
    | NoYears
    | TooManyYears
    | TooLarge
    /** The scanner panics. */
    | Panicked
    | ServerError(reason: string)

  /** A failed scan of the page, as the parser reports it. */
  function Reported(error: HtmlClose.ScanError): BankError {
    if error.SplitCharacter? then Panicked else BankError.TooLarge
  }

  // ---------------------------------------------------------------- parsing

  predicate AcceptedYear(value: string) {
    value != "" && (forall i | 0 <= i < |value| :: !IsControl(value[i])) && Utf8.Len(value) <= MAX_YEAR_BYTES
  }

  /** The trimmed option values that pass the filter, in document order, repeats included. */
  function Candidates(options: seq<Option<string>>): seq<string> {
    if options == [] then []
    else
      var rest := Candidates(options[1..]);
      if options[0].Some? && AcceptedYear(Trim(options[0].value)) then [Trim(options[0].value)] + rest else rest
  }

  function Unique(values: seq<string>): seq<string>
    decreases |values|
  {
    if values == [] then []
    else
      var before, last := Unique(values[..|values| - 1]), values[|values| - 1];
      if last in before then before else before + [last]
  }

  /** `parse_bank_years_html`, on the option values of the page. */
  function YearsOf(options: seq<Option<string>>): Result<seq<string>, BankError> {
    var years := Unique(Candidates(options));
    if |years| > MAX_YEARS then Err(TooManyYears) else if years == [] then Err(NoYears) else Ok(years)
  }

  lemma {:induction false} UniqueConcat(a: seq<string>, b: seq<string>)
    ensures Unique(a) <= Unique(a + b)
    decreases |b|
  {
    if b == [] {
      assert a + b == a;
    } else {
      UniqueConcat(a, b[..|b| - 1]);
      assert (a + b)[..|a + b| - 1] == a + b[..|b| - 1];
    }
  }

  lemma CandidatesRound(options: seq<Option<string>>, i: nat, seen: seq<string>)
    requires i < |options|
    ensures
      var rest := Candidates(options[i + 1..]);
      seen + Candidates(options[i..]) ==
        if options[i].Some? && AcceptedYear(Trim(options[i].value)) then seen + [Trim(options[i].value)] + rest
        else seen + rest
  {
    hide AcceptedYear, Trim;
    assert options[i..][1..] == options[i + 1..];
    if options[i].Some? {
      var value, rest := Trim(options[i].value), Candidates(options[i + 1..]);
      assert seen + ([value] + rest) == seen + [value] + rest;
    }
  }

  lemma UniqueSnoc(seen: seq<string>, value: string)
    ensures Unique(seen + [value]) == if value in Unique(seen) then Unique(seen) else Unique(seen) + [value]
  {
    assert (seen + [value])[..|seen|] == seen;
  }

  method ParseYears(options: seq<Option<string>>) returns (r: Result<seq<string>, BankError>)
    ensures r == YearsOf(options)
  {
    hide AcceptedYear, Trim, Unique, Candidates;
    var years: seq<string> := [];
    ghost var seen: seq<string> := [];
    NoCandidates();
    assert options[0..] == options && [] + Candidates(options) == Candidates(options);
    for i := 0 to |options|
      invariant Candidates(options) == seen + Candidates(options[i..])
      invariant years == Unique(seen) && |years| <= MAX_YEARS
    {
      CandidatesRound(options, i, seen);
      if options[i].None? {
        continue;
      }
      var value := Trim(options[i].value);
      if !AcceptedYear(value) {
        continue;
      }
      UniqueSnoc(seen, value);
      seen := seen + [value];
      if value in years {
        continue;
      }
      years := years + [value];
      if |years| > MAX_YEARS {
        UniqueConcat(seen, Candidates(options[i + 1..]));
        return Err(TooManyYears);
      }
    }
    assert options[|options|..] == [] && seen + [] == seen;
    return if years == [] then Err(NoYears) else Ok(years);
  }

  /** The `value` attributes of the page's options, absent ones included. */
  function OptionValues(options: seq<HtmlElements.RawElement>): seq<Option<string>> {
    seq(|options|, i requires 0 <= i < |options| => options[i].Attr("value"))
  }

  /** `parse_bank_years_html` on the page's text, once the page guard has passed it. */
  method ParseYearsPage(page: string) returns (r: Result<seq<string>, BankError>)
    ensures IsTagName("option")
    ensures var options := HtmlElements.ScanFrom(page, "option", 0, "element count");
            r == if options.Err? then Err(Reported(options.error)) else YearsOf(OptionValues(options.value))
  {
    hide HtmlElements.ScanFrom, YearsOf;
    var options := HtmlElements.Scan(page, "option");
    if options.Err? {
      return Err(Reported(options.error));
    }
    r := ParseYears(OptionValues(options.value));
  }

  lemma NoCandidates()
    ensures Candidates([]) == [] && Unique([]) == []
  {
  }

  function FirstIndex(values: seq<string>, value: string): (i: nat)
    requires value in values
    ensures i < |values| && values[i] == value && forall j | 0 <= j < i :: values[j] != value
  {
    if values[0] == value then 0 else FirstIndex(values[1..], value) + 1
  }

  /** No repeats; the same values; ordered by where each was first offered. */
  lemma {:induction false} UniqueIsFirstOccurrences(values: seq<string>)
    ensures var u := Unique(values);
      && (forall i, j | 0 <= i < j < |u| :: u[i] != u[j])
      && (forall v :: v in u <==> v in values)
      && (forall i, j | 0 <= i < j < |u| :: FirstIndex(values, u[i]) < FirstIndex(values, u[j]))
    decreases |values|
  {
    if values != [] {
      var n := |values| - 1;
      var before, last := values[..n], values[n];
      UniqueIsFirstOccurrences(before);
      assert values == before + [last];
      var u := Unique(before);
      forall v | v in before
        ensures FirstIndex(values, v) == FirstIndex(before, v)
      {
        FirstIndexOfPrefix(before, last, v);
      }
      if last !in before {
        assert FirstIndex(values, last) == n;
      }
    }
  }

  lemma FirstIndexOfPrefix(before: seq<string>, last: string, v: string)
    requires v in before
    ensures FirstIndex(before + [last], v) == FirstIndex(before, v)
  {
    var all := before + [last];
    var i, j := FirstIndex(before, v), FirstIndex(all, v);
    assert all[i] == before[i];
    assert j <= i;
    assert all[j] == before[j];
  }

  predicate Offers(option: Option<string>, value: string) {
    option.Some? && Trim(option.value) == value
  }

  /** Some option offers `v`, and none up to it offers `w`. */
  ghost predicate OfferedBefore(options: seq<Option<string>>, v: string, w: string) {
    exists k :: 0 <= k < |options| && Offers(options[k], v) && forall i | 0 <= i <= k :: !Offers(options[i], w)
  }

  /** Exactly the trimmed values of 1 to 32 bytes without control characters are kept. */
  lemma {:induction false} CandidatesExactly(options: seq<Option<string>>, value: string)
    ensures value in Candidates(options) <==>
              && value != "" && Utf8.Len(value) <= 32
              && (forall i | 0 <= i < |value| :: !IsControl(value[i]))
              && exists i :: 0 <= i < |options| && Offers(options[i], value)
  {
    hide Trim, IsControl;
    if |options| > 0 {
      var rest := options[1..];
      CandidatesExactly(rest, value);
      assert forall i | 0 <= i < |rest| :: rest[i] == options[i + 1];
      assert forall i | 0 < i < |options| :: options[i] == rest[i - 1];
    }
  }

  lemma {:induction false} CandidatesInOrder(options: seq<Option<string>>, v: string, w: string)
    requires v in Candidates(options) && w in Candidates(options)
    requires FirstIndex(Candidates(options), v) < FirstIndex(Candidates(options), w)
    ensures OfferedBefore(options, v, w)
  {
    hide Trim, AcceptedYear;
    var rest := options[1..];
    if !Offers(options[0], v) || !AcceptedYear(v) {
      CandidatesInOrder(rest, v, w);
      var k :| 0 <= k < |rest| && Offers(rest[k], v) && forall i | 0 <= i <= k :: !Offers(rest[i], w);
      CandidatesAreAccepted(options);
      assert forall i | 0 < i < |options| :: options[i] == rest[i - 1];
      assert Offers(options[k + 1], v);
    }
  }

  lemma {:induction false} CandidatesAreAccepted(options: seq<Option<string>>)
    ensures forall v | v in Candidates(options) :: AcceptedYear(v)
  {
    if options != [] {
      CandidatesAreAccepted(options[1..]);
    }
  }

  /**
   The years are the distinct values that options offer trimmed, of 1 to 32 bytes and without control
   characters, in the order in which they are first offered; none and more than 96 are errors.
   */
  lemma ParsedYears(options: seq<Option<string>>) returns (years: seq<string>)
    ensures forall i, j | 0 <= i < j < |years| :: years[i] != years[j] && OfferedBefore(options, years[i], years[j])
    ensures forall v :: v in years <==>
              && v != "" && Utf8.Len(v) <= 32
              && (forall i | 0 <= i < |v| :: !IsControl(v[i]))
              && exists i :: 0 <= i < |options| && Offers(options[i], v)
    ensures YearsOf(options) ==
            if |years| > 96 then Err(TooManyYears) else if |years| == 0 then Err(NoYears) else Ok(years)
  {
    hide Unique, Candidates, AcceptedYear, FirstIndex, OfferedBefore, Offers, IsControl;
    var candidates := Candidates(options);
    years := Unique(candidates);
    UniqueIsFirstOccurrences(candidates);
    forall i, j | 0 <= i < j < |years|
      ensures years[i] != years[j] && OfferedBefore(options, years[i], years[j])
    {
      assert years[i] in years && years[j] in years;
      CandidatesInOrder(options, years[i], years[j]);
    }
    forall v
      ensures v in years <==>
              && v != "" && Utf8.Len(v) <= 32
              && (forall i | 0 <= i < |v| :: !IsControl(v[i]))
              && exists i :: 0 <= i < |options| && Offers(options[i], v)
    {
      CandidatesExactly(options, v);
    }
  }

  // ---------------------------------------------------------------- batches

  /** `chunks`. */
  function Batches(years: seq<string>): (batches: seq<seq<string>>)
    decreases |years|
  {
    if |years| == 0 then []
    else if |years| <= MAX_YEARS_PER_BATCH then [years]
    else [years[..MAX_YEARS_PER_BATCH]] + Batches(years[MAX_YEARS_PER_BATCH..])
  }

  function Concat(batches: seq<seq<string>>): seq<string> {
    if batches == [] then [] else batches[0] + Concat(batches[1..])
  }

  /** The batches are the years in order, 1 to 4 in each, and as few as that allows. */
  lemma {:induction false} BatchesPartition(years: seq<string>)
    ensures Concat(Batches(years)) == years
    ensures forall b | b in Batches(years) :: 1 <= |b| <= MAX_YEARS_PER_BATCH
    ensures |Batches(years)| == (|years| + MAX_YEARS_PER_BATCH - 1) / MAX_YEARS_PER_BATCH
    decreases |years|
  {
    if |years| > MAX_YEARS_PER_BATCH {
      BatchesPartition(years[MAX_YEARS_PER_BATCH..]);
    } else if |years| > 0 {
      assert Concat([years]) == years + Concat([]);
    }
  }

  /** Accepted years never need more batches than are allowed. */
  lemma BatchLimitIsNeverMet(years: seq<string>)
    requires |years| <= MAX_YEARS
    ensures |Batches(years)| <= MAX_YEAR_BATCHES
  {
    BatchesPartition(years);
  }

  function YearPiece(year: string): string {
    "year=" + EncodeText(Rfc3986, year)
  }

  function YearPieces(years: seq<string>): seq<string> {
    if years == [] then [] else [YearPiece(years[0])] + YearPieces(years[1..])
  }

  /** `encode_year_form`. */
  function YearForm(years: seq<string>): string {
    Join(YearPieces(years), '&')
  }

  function DecodeYear(piece: string): Option<string> {
    var halves := Split(piece, '=');
    if |halves| != 2 || halves[0] != "year" then None else DecodeText(halves[1])
  }

  function DecodeYears(pieces: seq<string>): Option<seq<string>> {
    if pieces == [] then Some([])
    else
      match (DecodeYear(pieces[0]), DecodeYears(pieces[1..]))
      case (Some(year), Some(rest)) => Some([year] + rest)
      case _ => None
  }

  lemma DecodeYearOfPiece(year: string)
    ensures DecodeYear(YearPiece(year)) == Some(year) && '&' !in YearPiece(year)
  {
    hide EncodeText, DecodeText, Split;
    EncodedTextHasNoSeparator(Rfc3986, year);
    var value := EncodeText(Rfc3986, year);
    SplitPiece("year", value, '=');
    SplitPiece(value, "", '=');
    assert "year=" + value == "year" + ['='] + value;
    DecodeOfEncode(Rfc3986, year);
  }

  lemma {:induction false} DecodeYearsOfPieces(years: seq<string>)
    ensures DecodeYears(YearPieces(years)) == Some(years) && |YearPieces(years)| == |years|
    ensures forall piece | piece in YearPieces(years) :: '&' !in piece
  {
    hide DecodeYear, YearPiece;
    if years != [] {
      DecodeYearOfPiece(years[0]);
      DecodeYearsOfPieces(years[1..]);
      assert years == [years[0]] + years[1..];
    }
  }

  /** Decoding the body of a batch gives back its years. */
  lemma YearFormRoundTrip(years: seq<string>)
    requires years != []
    ensures DecodeYears(Split(YearForm(years), '&')) == Some(years)
  {
    DecodeYearsOfPieces(years);
    SplitOfJoin(YearPieces(years), '&');
  }

  method EncodeYearForm(years: seq<string>) returns (form: string)
    ensures form == YearForm(years)
  {
    var pieces: seq<string> := [];
    for i := 0 to |years|
      invariant YearPieces(years) == pieces + YearPieces(years[i..])
    {
      assert years[i..][1..] == years[i + 1..];
      var value := PercentEncode(Rfc3986, years[i]);
      pieces := pieces + ["year=" + value];
    }
    assert years[|years|..] == [] && pieces + [] == pieces;
    form := Join(pieces, '&');
  }

  // ---------------------------------------------------------------- the ledger read

  /** What the server answers to one batch body: parsed month sections, or an error. */
  type Server<!Month> = string -> Result<seq<Month>, BankError>

  /** The bodies sent, up to and including the first that fails. */
  function Sent<Month>(batches: seq<seq<string>>, server: Server<Month>): seq<string> {
    if batches == [] then []
    else
      var form := YearForm(batches[0]);
      if server(form).Err? then [form] else [form] + Sent(batches[1..], server)
  }

  /** The months of every batch in order, or the first error. */
  function Answers<Month>(batches: seq<seq<string>>, server: Server<Month>): Result<seq<Month>, BankError> {
    if batches == [] then Ok([])
    else
      var months :- server(YearForm(batches[0]));
      var rest :- Answers(batches[1..], server);
      Ok(months + rest)
  }

  function Ledger<Month>(years: seq<string>, server: Server<Month>): Result<seq<Month>, BankError> {
    var months :- Answers(Batches(years), server);
    if |months| > MAX_MONTHS then Err(TooLarge) else Ok(months)
  }

  function PrependMonths<Month>(months: seq<Month>, r: Result<seq<Month>, BankError>): Result<seq<Month>, BankError> {
    match r
    case Err(error) => Err(error)
    case Ok(rest) => Ok(months + rest)
  }

  lemma LedgerRound<Month>(batches: seq<seq<string>>, server: Server<Month>, i: nat, months: seq<Month>,
      sent: seq<string>)
    requires i < |batches|
    ensures
      var form := YearForm(batches[i]);
      && sent + Sent(batches[i..], server) ==
           (if server(form).Err? then sent + [form] else sent + [form] + Sent(batches[i + 1..], server))
      && PrependMonths(months, Answers(batches[i..], server)) ==
           match server(form)
           case Err(error) => Err(error)
           case Ok(more) => PrependMonths(months + more, Answers(batches[i + 1..], server))
  {
    hide YearForm;
    var here, form := batches[i..], YearForm(batches[i]);
    assert here[0] == batches[i] && here[1..] == batches[i + 1..];
    var answer, rest, later := server(form), Answers(here[1..], server), Sent(here[1..], server);
    assert answer.Ok? && rest.Ok? ==> months + (answer.value + rest.value) == months + answer.value + rest.value;
    assert sent + ([form] + later) == sent + [form] + later;
  }

  lemma PrependNoMonths<Month>(r: Result<seq<Month>, BankError>)
    ensures PrependMonths([], r) == r
  {
    assert r.Ok? ==> [] + r.value == r.value;
  }

  lemma LedgerEnds<Month>(batches: seq<seq<string>>, server: Server<Month>, months: seq<Month>, sent: seq<string>)
    requires |batches| == 0
    ensures sent + Sent(batches, server) == sent && PrependMonths(months, Answers(batches, server)) == Ok(months)
  {
    assert months + [] == months;
  }

  /** The months of the first `n` answers, in order. */
  function MonthsOf<Month>(batches: seq<seq<string>>, server: Server<Month>, n: nat): seq<Month>
    requires n <= |batches| && forall i | 0 <= i < n :: server(YearForm(batches[i])).Ok?
  {
    if n == 0 then [] else MonthsOf(batches, server, n - 1) + server(YearForm(batches[n - 1])).value
  }

  lemma {:induction false} MonthsOfTail<Month>(batches: seq<seq<string>>, server: Server<Month>, n: nat)
    requires 0 < n <= |batches| && forall i | 0 <= i < n :: server(YearForm(batches[i])).Ok?
    ensures forall i | 0 <= i < n - 1 :: batches[1..][i] == batches[i + 1]
    ensures MonthsOf(batches, server, n) == server(YearForm(batches[0])).value + MonthsOf(batches[1..], server, n - 1)
  {
    hide YearForm;
    assert forall i | 0 <= i < n - 1 :: batches[1..][i] == batches[i + 1];
    var first := server(YearForm(batches[0])).value;
    if n == 1 {
      assert [] + first == first + [];
    } else {
      MonthsOfTail(batches, server, n - 1);
      var last := server(YearForm(batches[n - 1])).value;
      assert first + MonthsOf(batches[1..], server, n - 2) + last ==
          first + (MonthsOf(batches[1..], server, n - 2) + last);
    }
  }

  /**
   Batches go out in order up to and including the first that fails, and its error is the answer;
   when none fails, the answer is the months of all of them in order.
   */
  lemma {:induction false} LedgerExactly<Month>(batches: seq<seq<string>>, server: Server<Month>, n: nat)
    requires n <= |batches| && forall i | 0 <= i < n :: server(YearForm(batches[i])).Ok?
    requires n < |batches| ==> server(YearForm(batches[n])).Err?
    ensures Answers(batches, server) ==
            if n < |batches| then Err(server(YearForm(batches[n])).error) else Ok(MonthsOf(batches, server, n))
    ensures |Sent(batches, server)| == if n < |batches| then n + 1 else n
    ensures forall i | 0 <= i < |Sent(batches, server)| :: Sent(batches, server)[i] == YearForm(batches[i])
    decreases n
  {
    hide YearForm;
    if n > 0 {
      assert forall i | 0 <= i < |batches| - 1 :: batches[1..][i] == batches[i + 1];
      LedgerExactly(batches[1..], server, n - 1);
      if n == |batches| {
        MonthsOfTail(batches, server, n);
      }
    }
  }

  class BankPaymentAdapter {
    var generation: nat
    /** Every body sent so far. */
    ghost var sent: seq<string>

    constructor ()
      ensures generation == 0 && sent == []
    {
      generation := 0;
      sent := [];
    }

    /** `read_ledger_with_proof`, after the year form was read and parsed. */
    method ReadLedger<Month>(parsed: Result<seq<string>, BankError>, server: Server<Month>)
      returns (r: Result<seq<Month>, BankError>)
      requires generation < GENERATIONS
      requires parsed.Ok? ==> 1 <= |parsed.value| <= MAX_YEARS
      modifies this
      ensures r == if parsed.Err? then Err(parsed.error) else Ledger(parsed.value, server)
      ensures sent == old(sent) + if parsed.Err? then [] else Sent(Batches(parsed.value), server)
      ensures generation == if r.Ok? then (old(generation) + 1) % GENERATIONS else old(generation)
      ensures r.Ok? ==> |r.value| <= MAX_MONTHS
    {
      hide YearForm, Answers, Sent, Batches, PrependMonths;
      if parsed.Err? {
        return Err(parsed.error);
      }
      var batches := Batches(parsed.value);
      BatchLimitIsNeverMet(parsed.value);
      var months: seq<Month> := [];
      assert batches[0..] == batches;
      PrependNoMonths(Answers(batches, server));
      for i := 0 to |batches|
        invariant generation == old(generation)
        invariant Answers(batches, server) == PrependMonths(months, Answers(batches[i..], server))
        invariant old(sent) + Sent(batches, server) == sent + Sent(batches[i..], server)
      {
        LedgerRound(batches, server, i, months, sent);
        if i + 1 > MAX_YEAR_BATCHES {
          // The source reports too many years here; no accepted year list gets this far.
          assert false;
        }
        var form := EncodeYearForm(batches[i]);
        sent := sent + [form];
        var answer := server(form);
        if answer.Err? {
          return Err(answer.error);
        }
        months := months + answer.value;
      }
      LedgerEnds(batches[|batches|..], server, months, sent);
      if |months| > MAX_MONTHS {
        return Err(TooLarge);
      }
      generation := (generation + 1) % GENERATIONS;
      return Ok(months);
    }
  }
}
