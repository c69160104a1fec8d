# Verification of the campus client's core

A Dafny model of five parts of the campus client, with proofs about every input, every run or
every interleaving. `dafny verify dfyconfig.toml` checks the whole project.

The parts, and the modules that hold them:

- **The bounded HTML scanner** (`HtmlTags`, `HtmlClose`, `HtmlAttributes`, `HtmlEntities`,
  `HtmlReferences`, `HtmlElements`, `HtmlForest`, `HtmlRoundTrip`, `HtmlNesting`, `HtmlEscaping`,
  `HtmlText`). The source works by index on one text; each of its loops is a method here, proved
  equal to a function of the text that is left.
  About those functions: the close found is the first balance point of the token stream; the two
  passes over an element agree; a printed forest is read back, with names in any case, values in
  quotes, bare or absent, tags that close themselves, and any characters in its texts and values
  when it is printed escaped; its visible text is that of its nodes; and exactly which inputs
  panic.
- **The questionnaire adapter** (`AssessmentValues`, `AssessmentFailures`, `AssessmentBody`,
  `AssessmentPairs`, `AssessmentPages`, `AssessmentForms`, `AssessmentQuestions`, `AssessmentRows`,
  `AssessmentRuns`, `AssessmentAdapters`, `AssessmentRoutes`, `PercentCoding`). Forms and the adapter are objects; `AssessmentRuns` is the
  adapter as a state machine over list reads, form reads and submissions against any server.
- **Payroll parsing and batching** (`BankYears`, `BankMonths`, `BankReceipts`, `BankColumns`,
  `BankPages`). Columns are located by label: each field of a receipt is the text under its own
  label, and the order of the columns does not matter, from the HTML of a printed page to the
  receipts.
- **The cache file** (`CacheValues`, `CacheRegister`, `CacheFiles`, `CacheRuns`). `CacheRegister`
  says what one step of a register is; `CacheFiles` is one process on a disk whose every operation
  may fail, with a snapshot for every crash point; `CacheRuns` is any number of processes, one
  system call at a time, refining a single register.
- **The handle tables** (`ClientTables`, `ClientRuns`, `ClientHall`, `ClientHierarchy`,
  `ClientHandles`). Random identifiers are numbers that never repeat, and every answer of the
  inner client is arbitrary. The twenty or so tables are one indexed field of the object, with the
  two reversed ones beside it.

`Text`, `Utf8` and `Wrappers` hold what Rust's standard library provides. Texts are sequences of
Unicode scalar values; byte lengths are those of their UTF-8 form. Fixed-width numbers wrap or
overflow where the source's do: the list and ledger generations modulo 2^64, scores below 2^32,
timestamps below 2^128.

Where the source and its own documentation differ, the model follows the source:

- `scan` and `direct_children` are the same loop: both return the outermost elements of a name,
  wherever they start. The comments "at any nesting depth" and "direct child" say something else
  (campus_html.rs:124, 160-163). `ScanFindsAllExactly` and `ChildrenAreDirectExactly` say for
  which printed pages the comments hold, `NestedCellIsNotScanned` and `DeeperCellIsReturned` give
  pages for which they do not.
- `decode_entities` cuts a 32-byte window by byte (campus_html.rs:272). When the window ends
  inside a multi-byte character the slice panics. Results are `None`, or the error
  `SplitCharacter`, there. `PanicExactly` says for which texts that happens, `ParsePanicsExactly`
  and `ScanPanicsExactly` for which elements and pages.
- `parse_score` accepts any 32-bit number, although the comment on the form parser promises a
  score in the accepted range (assessment_read.rs:2182, 2503-2509): `ScoreIsNotRangeChecked`, and
  `ScoreInRangeExactly` for every text.
- `parse_question_row` calls a row without exactly one comment and one score unreadable in its
  comment; the code skips a row without a cell or without a score and accepts one without a
  comment (assessment_read.rs:2388-2401, 2423-2425): `RowWithoutCellsIsSkipped`,
  `RowWithoutScoreIsSkipped`, `RowWithoutCommentIsAccepted`, and `UnreadableExactly` for the source
  of every row.
- `has_unconfirmed_submission` is documented as true when a submission was dispatched and not
  confirmed (assessment_read.rs:1835-1837); the flag misses abandoned submissions and is put down by
  another row's confirmation or a list read: `UnconfirmedIsMissed`, and `FlagIsRightExactly` for
  every run.
- `element_text` drops all text after a script, style, template or noscript block that is never
  closed, although its comment promises to keep the remainder readable (campus_html.rs:216-219):
  `UnclosedScriptHidesText`, and `DroppedExactly` for everything that can follow such a tag.
- `apply_to` may leave a form half applied when it fails: `HalfAppliedWitness` is an input,
  `HalfAppliedExactly` the condition. What the service owns is unchanged even then.
- The `td` cells of a payroll header stand in for the `th` cells only when reading the latter
  fails, not when there are none (bank_read.rs:1300-1305): `CellHeaderIsNotLocated`, and
  `HeaderExactly` for every table.
- `invalidate_auth_bound_references` does not empty the library reservations, so a reservation
  handle outlives a logout (sdk_api.rs:6675-6694). `ReservationOutlivesLogout` is a run,
  `OnlyReservationsSurvive` and `InvalidatedIsRefused` say that it is the one exception.
- A generation repeats after 2^64 accepted list reads; an evaluation that old would be taken for a
  current one: `SupersededIsPostedAfterWrap` is such a run, `StaleExactly` the exact condition.

## Model

| member | source | states |
|---|---|---|
| HtmlTags.FindTagEnd | rust/crates/tsinghua-kit-engine/src/campus_html.rs:479-508 | The result is the first `>` that the quote automaton, run over everything before it, leaves outside a quoted value; none when there is no such `>` |
| HtmlTags.TagEndOfPrefix | rust/crates/tsinghua-kit-engine/src/campus_html.rs:479-508 | Where a tag ends is decided by the characters up to its end: any text that agrees so far ends the tag at the same place |
| HtmlTags.CommentEndsExactly | rust/crates/tsinghua-kit-engine/src/campus_html.rs:314-319 | A comment ends just past its first `-->`, or with the text when there is none |
| HtmlClose.MatchingCloseIsFirstBalance | rust/crates/tsinghua-kit-engine/src/campus_html.rs:515-567 | Over the comment-skipping token stream, the close returned is the first token at which opens minus closes reaches zero; `None` only when the level stays positive to the end; an unfinished tag is the error, and only if it comes first |
| HtmlClose.BalancedResultIsUnique | rust/crates/tsinghua-kit-engine/src/campus_html.rs:515-567 | The three outcomes exclude each other, so the token stream alone decides the result, whatever the scanner does inside |
| HtmlClose.FindMatchingClose | rust/crates/tsinghua-kit-engine/src/campus_html.rs:515-567 | The index loop returns that close, in the coordinates of the whole text; each round strictly advances |
| HtmlClose.HeadTokenOfPrefix | rust/crates/tsinghua-kit-engine/src/campus_html.rs:521-565 | A token that ends inside a prefix of the text is the same token there |
| HtmlClose.MatchingCloseOfPrefix | rust/crates/tsinghua-kit-engine/src/campus_html.rs:405-450 | Cutting the text at or after the matching close does not move the close |
| HtmlAttributes.ParseAttributes | rust/crates/tsinghua-kit-engine/src/campus_html.rs:570-638 | The parser's nested index loops compute the attribute list of the text for every input, well formed or not |
| HtmlAttributes.ReadPrintedAttributes | rust/crates/tsinghua-kit-engine/src/campus_html.rs:570-638 | Parsing recovers every printed list of pairs in order, whichever way each value is written: in double or single quotes, bare, or not at all, with any ASCII white space before names and around `=`, none needed behind a closing quote, and with white space or a slash at the end |
| HtmlAttributes.ReadNothing | rust/crates/tsinghua-kit-engine/src/campus_html.rs:578-591 | White space, slashes and stray `=` or `>` between attributes are skipped one character at a time, and what follows is read as if they were not there |
| HtmlAttributes.CutOffIsEmpty | rust/crates/tsinghua-kit-engine/src/campus_html.rs:593-608 | A name with an `=` and nothing behind it reads as the empty value |
| HtmlAttributes.UnfinishedQuoteHoldsTheRest | rust/crates/tsinghua-kit-engine/src/campus_html.rs:609-618 | A quote that is never closed holds everything to the end of the tag |
| HtmlEntities.CollapseWhitespace | rust/crates/tsinghua-kit-engine/src/campus_html.rs:242-258 | The one-pass loop produces the words of the text with one space between each two |
| HtmlEntities.CollapsedKeepsWords | rust/crates/tsinghua-kit-engine/src/campus_html.rs:242-258 | Collapsing changes no word and is idempotent |
| HtmlEntities.DecodeEntities | rust/crates/tsinghua-kit-engine/src/campus_html.rs:263-312 | The loop decodes every text as the specification does, including where the byte window ends inside a character and the source panics |
| HtmlEntities.PanicExactly | rust/crates/tsinghua-kit-engine/src/campus_html.rs:263-312 | For every text: decoding returns if and only if at each `&` the 32-byte window ends between two characters; otherwise the source panics |
| HtmlEntities.DecodeUndoesEscape | rust/crates/tsinghua-kit-engine/src/campus_html.rs:263-312 | Decoding undoes the escaping of `& < > " '` for exactly the texts whose escaped form has a character boundary at the end of every 32-byte window; for every other text the source panics |
| HtmlEntities.DecodeUndoesEscapeOfAscii | rust/crates/tsinghua-kit-engine/src/campus_html.rs:263-312 | On ASCII, decoding undoes escaping for every text |
| HtmlEntities.DecodeCanPanic | rust/crates/tsinghua-kit-engine/src/campus_html.rs:272 | A concrete family that panics: an escaped `<` followed by ten or more three-byte characters |
| HtmlReferences.DecodeUndoesSpelling | rust/crates/tsinghua-kit-engine/src/campus_html.rs:263-312 | Decoding gives every text back whichever of its characters are written by one of the eight names, in decimal or in hexadecimal, as long as no window ends inside a character |
| HtmlReferences.EntityExactly | rust/crates/tsinghua-kit-engine/src/campus_html.rs:278-300 | Exactly the eight names and the numbers of Unicode scalar values are references, each for its own character |
| HtmlReferences.NumberExactly | rust/crates/tsinghua-kit-engine/src/campus_html.rs:305-312 | A reference that starts with `#` is, but for an `x` of either case and one plus sign, a numeral in ten or sixteen, and stands for the character with that number; anything else stands for nothing |
| HtmlReferences.UnknownStaysLiteral | rust/crates/tsinghua-kit-engine/src/campus_html.rs:294-300 | The `&` of any other reference stays as it is, and decoding goes on behind it |
| HtmlReferences.AmpersandStaysLiteral | rust/crates/tsinghua-kit-engine/src/campus_html.rs:272-277 | So does an `&` without a `;` in its window |
| HtmlElements.NextElementIn | rust/crates/tsinghua-kit-engine/src/campus_html.rs:413-451 | The search loop returns the first start tag of that name outside comments together with the end of its element, or the error met on the way |
| HtmlElements.NextElementFinds | rust/crates/tsinghua-kit-engine/src/campus_html.rs:413-451 | A found range starts at a start tag and is exactly the element that starts there |
| HtmlElements.TwoPassesAgree | rust/crates/tsinghua-kit-engine/src/campus_html.rs:365-451 | For every text and name: parsing the slice a search found never reports it unbalanced, fails only on size or on the decoder's panic, and otherwise its inner text is the text between the tag end and the close found in the full text |
| HtmlElements.Parse | rust/crates/tsinghua-kit-engine/src/campus_html.rs:365-410 | The second pass returns the element of its slice: attributes decoded, inner and outer source cut where the slice says |
| HtmlElements.Scan | rust/crates/tsinghua-kit-engine/src/campus_html.rs:125-138 | The collecting loop returns the outermost elements of the name, in order, or the first error |
| HtmlElements.DirectChildren | rust/crates/tsinghua-kit-engine/src/campus_html.rs:164-177 | The same loop under another limit message: it also returns outermost elements, at whatever depth they start |
| HtmlElements.RangesIncrease | rust/crates/tsinghua-kit-engine/src/campus_html.rs:125-138 | The ranges a scan visits are non-empty, disjoint and increasing, and lie in the text |
| HtmlElements.ScanReturnsItsRanges | rust/crates/tsinghua-kit-engine/src/campus_html.rs:125-138 | Every element returned is the source of its own range and its inner text lies in that range; their number respects the limit |
| HtmlRoundTrip.ClosePassesForest | rust/crates/tsinghua-kit-engine/src/campus_html.rs:515-567 | A printed forest is balanced for every tag name: the depth counter leaves it at the level it entered, whatever follows |
| HtmlRoundTrip.PrintedElementParses | rust/crates/tsinghua-kit-engine/src/campus_html.rs:365-451 | A printed element is found whole wherever it stands, and parses to its own attributes and its own printed children |
| HtmlRoundTrip.PrintScanRoundTrip | rust/crates/tsinghua-kit-engine/src/campus_html.rs:125-138 | For every printable forest and name, scanning the print yields exactly what the outermost elements of that name make, in document order, with the size, count and decoding failures of the source |
| HtmlRoundTrip.ScanReadsBack | rust/crates/tsinghua-kit-engine/src/campus_html.rs:125-138 | Read off element by element: under the limits, the scan returns exactly the outermost nodes, each with its printed children as inner text and its print as outer text |
| HtmlElements.ParsePanicsExactly | rust/crates/tsinghua-kit-engine/src/campus_html.rs:365-410 | Parsing a slice panics exactly when it has a supported size, a finished start tag and an attribute value that cannot be decoded |
| HtmlElements.ScanPanicsExactly | rust/crates/tsinghua-kit-engine/src/campus_html.rs:125-138 | For every text: a scan panics exactly when, within the element limit, the first element that does not parse holds such a value |
| HtmlElements.VisitedAreRanges | rust/crates/tsinghua-kit-engine/src/campus_html.rs:125-138 | The elements meant there are the slices of the scan's ranges |
| HtmlElements.AttrIsFirst | rust/crates/tsinghua-kit-engine/src/campus_html.rs:98-105 | Looking an attribute up gives the value of its first occurrence, and nothing exactly when there is none |
| HtmlNesting.ScanFindsAllExactly | rust/crates/tsinghua-kit-engine/src/campus_html.rs:124-138 | On a printed page a scan returns the elements of the name at any nesting depth if and only if none of them holds another one; otherwise it returns fewer |
| HtmlNesting.NestedCellIsNotScanned | rust/crates/tsinghua-kit-engine/src/campus_html.rs:124-138 | An input where it does not: a cell inside a cell |
| HtmlNesting.ChildrenAreDirectExactly | rust/crates/tsinghua-kit-engine/src/campus_html.rs:160-177 | On a printed page `direct_children` returns exactly the children of the name if and only if none starts deeper outside one; otherwise it returns more |
| HtmlNesting.DeeperCellIsReturned | rust/crates/tsinghua-kit-engine/src/campus_html.rs:160-177 | An input where it does not: a cell inside a row |
| HtmlNesting.PrintScanPanicsExactly | rust/crates/tsinghua-kit-engine/src/campus_html.rs:125-138 | Scanning a print panics exactly when the first outermost element that cannot be returned has a supported size and an undecodable value |
| HtmlEscaping.EscapedValueReadsBack | rust/crates/tsinghua-kit-engine/src/campus_html.rs:238-312 | An escaped value is read as the collapsed original when its windows are aligned, and panics otherwise; so it comes back as it was if and only if it is collapsed and aligned |
| HtmlEscaping.EscapedAttributesReadBack | rust/crates/tsinghua-kit-engine/src/campus_html.rs:376-379 | A list of attributes printed with escaped values comes back with its names in lower case and its values collapsed, or panics, exactly when one value is not aligned |
| HtmlEscaping.ScanReadsEscaped | rust/crates/tsinghua-kit-engine/src/campus_html.rs:125-138 | For every forest, whatever characters its texts and values hold: scanning its escaped print returns the outermost elements of the name in order, each with its own attributes collapsed and its own escaped children |
| HtmlText.ElementText | rust/crates/tsinghua-kit-engine/src/campus_html.rs:179-240 | The loop that drops tags, comments and script content computes the visible text of every fragment, unfinished tags and the decoder's panic included |
| HtmlText.RawTextOfPrint | rust/crates/tsinghua-kit-engine/src/campus_html.rs:186-235 | On every printed forest the loop gathers the text of its nodes in order, a space for each line-breaking close or void tag and one for each dropped element, whatever follows |
| HtmlText.TextOfEscapedPage | rust/crates/tsinghua-kit-engine/src/campus_html.rs:179-240 | The visible text of every forest printed escaped is the collapsed text of its nodes; the source panics on it exactly when the escaped text has a window that ends inside a character |
| HtmlText.BlocksStayApart | rust/crates/tsinghua-kit-engine/src/campus_html.rs:182-184 | The words of neighbouring cells, rows or paragraphs are the words of each, in order: none run together |
| HtmlText.InlineRunsOn | rust/crates/tsinghua-kit-engine/src/campus_html.rs:182-185 | Markup that is neither a line-breaking element nor one whose content is dropped adds nothing to the text of its children |
| HtmlText.BreakIsSpace | rust/crates/tsinghua-kit-engine/src/campus_html.rs:211-232 | A `br`, and a script, style, template or noscript element, is one space |
| HtmlText.DroppedExactly | rust/crates/tsinghua-kit-engine/src/campus_html.rs:211-223 | Past any start tag of a dropped element, however it is written, the text read is what follows its matching close if there is one, and nothing if there is none |
| HtmlText.UnclosedScriptHidesText | rust/crates/tsinghua-kit-engine/src/campus_html.rs:216-218 | An input family: after a script that is never closed, no text is visible |
| PercentCoding.PercentEncode | rust/crates/tsinghua-kit-engine/src/assessment_read.rs:2530-2545 | The byte loop computes the encoding of the text; the same loop serves both alphabets (`encodeURIComponent`, section 19.2.6.4 of ECMA-262, and the RFC 3986 one) |
| PercentCoding.DecodeOfEncode | rust/crates/tsinghua-kit-engine/src/assessment_read.rs:2530-2545 | Percent-decoding (section 2.1 of RFC 3986) gives back every text that was encoded, non-ASCII included |
| PercentCoding.EncodedCharExactly | rust/crates/tsinghua-kit-engine/src/assessment_read.rs:2530-2545 | A character is written as it is exactly when it is a letter, a digit or one of the marks of its alphabet; everything else is written in escapes with upper-case digits |
| PercentCoding.EncodedTextHasNoSeparator | rust/crates/tsinghua-kit-engine/src/assessment_read.rs:687-709 | No `&` or `=` survives encoding, so form pieces cannot run together |
| AssessmentValues.ApplySucceedsExactly | rust/crates/tsinghua-kit-engine/src/assessment_read.rs:1202-1250 | Applying answers succeeds exactly when every score is in 1..7, the people and question counts match and every supplied comment has a field and may be carried; on success each score is its answer and an absent comment keeps the old value |
| AssessmentValues.ApplyKeepsOwned | rust/crates/tsinghua-kit-engine/src/assessment_read.rs:1202-1250 | On success and on failure alike everything the service owns is unchanged: field names, transaction values, companion values, which fields exist |
| AssessmentFailures.FormKeptExactly | rust/crates/tsinghua-kit-engine/src/assessment_read.rs:1202-1250 | Accepted or refused, the form is left as it was if and only if nothing the answers get to write before the first refusal differs from what it holds |
| AssessmentFailures.HalfAppliedExactly | rust/crates/tsinghua-kit-engine/src/assessment_read.rs:1202-1250 | A refused application half applies exactly when the answers do not fit and something written before the refusal was new |
| AssessmentFailures.HalfAppliedWitness | rust/crates/tsinghua-kit-engine/src/assessment_read.rs:1202-1211 | An input: a form with a transaction, one person and one question, and fitting answers but for a comment that has no field, is refused and has its score changed |
| AssessmentBody.BodyRoundTrip | rust/crates/tsinghua-kit-engine/src/assessment_read.rs:687-709 | Splitting the body on `&`, then each piece on `=`, and decoding yields exactly the ordered pair list, one piece for each pair |
| AssessmentBody.BodyIsInjective | rust/crates/tsinghua-kit-engine/src/assessment_read.rs:687-709 | Distinct pair lists are submitted as distinct bodies |
| AssessmentBody.ApplyKeepsNames | rust/crates/tsinghua-kit-engine/src/assessment_read.rs:669-709 | Applying answers changes neither the names submitted, nor their order, nor the field count |
| AssessmentBody.ApplyKeepsTransaction | rust/crates/tsinghua-kit-engine/src/assessment_read.rs:687-709 | The transaction pairs lead every body with the service's own values, after any answers |
| AssessmentPairs.BodyCarriesForm | rust/crates/tsinghua-kit-engine/src/assessment_read.rs:687-709 | Decoding the body gives, at places counted off from the form itself, every transaction value, the overall comment and score, and for every question of every teacher and assistant its companion values, its comment and its own score under its own name, and nothing else |
| AssessmentPairs.AnswersAreSubmitted | rust/crates/tsinghua-kit-engine/src/assessment_read.rs:1202-1250 | When answers fit a form, the body submitted after them carries the score answered for each question under that question's score name, each supplied comment under its field's name, the old comment where none was supplied, and everything else as the service gave it |
| AssessmentForms.AssessmentPerson.SetQuestionScore | rust/crates/tsinghua-kit-engine/src/assessment_read.rs:489-502 | One score changes and nothing else, exactly when the score is in range and the question exists |
| AssessmentForms.AssessmentPerson.SetQuestionSuggestion | rust/crates/tsinghua-kit-engine/src/assessment_read.rs:505-517 | One comment value changes and nothing else, exactly when the question exists, has a comment field and the text may be carried |
| AssessmentForms.AssessmentPerson.SetSuggestion | rust/crates/tsinghua-kit-engine/src/assessment_read.rs:532-548 | Every question that has a comment field takes the text; a person without any reports it |
| AssessmentForms.AssessmentPerson.SetAllScores | rust/crates/tsinghua-kit-engine/src/assessment_read.rs:551-559 | All scores change together or none does |
| AssessmentForms.AssessmentPerson.Answer | rust/crates/tsinghua-kit-engine/src/assessment_read.rs:1231-1250 | The in-place loop stops at the first refused answer and leaves the questions before it answered |
| AssessmentForms.AssessmentPerson.SubmissionPairs | rust/crates/tsinghua-kit-engine/src/assessment_read.rs:562-568 | The pairs pushed are those of the questions in order: companions, comment, score |
| AssessmentForms.BulkSettersKeepOwned | rust/crates/tsinghua-kit-engine/src/assessment_read.rs:532-559 | The bulk setters touch nothing the service owns |
| AssessmentForms.ApplyPersonAnswers | rust/crates/tsinghua-kit-engine/src/assessment_read.rs:1231-1250 | The outer in-place loop over distinct people equals answering them one after another, up to and including the first refusal |
| AssessmentForms.AssessmentForm.SetScore | rust/crates/tsinghua-kit-engine/src/assessment_read.rs:615-621 | Only the overall score changes, and only to a value in range |
| AssessmentForms.AssessmentForm.SetSuggestion | rust/crates/tsinghua-kit-engine/src/assessment_read.rs:629-634 | Only the value of an existing overall comment changes |
| AssessmentForms.AssessmentForm.ApplyAnswers | rust/crates/tsinghua-kit-engine/src/assessment_read.rs:1202-1211 | The stateful application succeeds exactly when the answers fit, then holds the answers, in every case leaves the service-owned part alone, and leaves the whole form alone exactly under the condition of `FormKeptExactly` |
| AssessmentForms.AssessmentForm.FieldCount | rust/crates/tsinghua-kit-engine/src/assessment_read.rs:669-678 | The count computed without serializing is the number of pairs a submission carries |
| AssessmentForms.AssessmentForm.SubmissionPairs | rust/crates/tsinghua-kit-engine/src/assessment_read.rs:687-698 | The pushes produce transaction, comment, score, teachers, assistants, in that order |
| AssessmentForms.AssessmentForm.Serialize | rust/crates/tsinghua-kit-engine/src/assessment_read.rs:687-709 | The body decodes back to exactly the form's pairs and splits into as many pieces as the field count |
| AssessmentForms.RenderBody | rust/crates/tsinghua-kit-engine/src/assessment_read.rs:699-709 | The joining loop puts separators between pieces and nowhere else |
| AssessmentQuestions.ParseQuestionRow | rust/crates/tsinghua-kit-engine/src/assessment_read.rs:2397-2469 | The nested loops over cells, lists and inputs return the question of the row with the visible text of its label cell, or the error, of the specification below; every failed scan is reported as too large |
| AssessmentQuestions.QuestionExactly | rust/crates/tsinghua-kit-engine/src/assessment_read.rs:2397-2469 | For the source of any row: it is a question exactly when it has a cell whose text decodes, its lists hold one named input between them, every value it submits may be carried and at most one other input is a comment, and then comment and others together are, as a multiset, every submitted input but the score; it is passed over exactly when it has no cell or, with a cell whose text decodes, its lists hold no named input |
| AssessmentQuestions.UnreadableExactly | rust/crates/tsinghua-kit-engine/src/assessment_read.rs:2388-2469 | For the source of any row without exactly one score and one comment: it is reported as unreadable unless it has no cell, its lists hold no named input, it has one score, nothing it cannot carry and no comment, or the source panics |
| AssessmentQuestions.RowPanicsExactly | rust/crates/tsinghua-kit-engine/src/assessment_read.rs:2397-2469 | For the source of any row: reading it panics exactly when the scan for cells does, the text of the label cannot be decoded, the scan for lists does, a list's inputs do before a second score was met, or the inputs of a row with one score do |
| AssessmentPages.QuestionRowIsReadBack | rust/crates/tsinghua-kit-engine/src/assessment_read.rs:2388-2469 | From HTML to result: a row printed with its cells, its list with the score and any inputs beside it is read back with the label of the right cell, the score under its own name at the lowest value, the companions with their values in order and the one classed input as its comment; buttons of any spelling and nameless inputs are left out; without a score name there is no question, and a field no form could hold or a second comment is the error |
| AssessmentRows.RowWithoutCellsIsSkipped | rust/crates/tsinghua-kit-engine/src/assessment_read.rs:2398-2401 | An input: the HTML of a row with a list of two named inputs and no cell is no question and no error |
| AssessmentRows.RowWithoutScoreIsSkipped | rust/crates/tsinghua-kit-engine/src/assessment_read.rs:2397-2425 | An input of the first kind: the HTML of a row with a cell and no list is no question and no error |
| AssessmentRows.RowWithoutCommentIsAccepted | rust/crates/tsinghua-kit-engine/src/assessment_read.rs:2397-2469 | An input of the second kind: the HTML of a row with a cell and a named input in a list is a question without a comment |
| AssessmentQuestions.ReadInputs | rust/crates/tsinghua-kit-engine/src/assessment_read.rs:2426-2469 | The loop that sorts inputs fails exactly for a value no form could hold or a second comment |
| AssessmentQuestions.FindScoreName | rust/crates/tsinghua-kit-engine/src/assessment_read.rs:2411-2425 | The doubly nested loop finds the one named input of all lists, refuses a second and reports a list it cannot scan, in document order |
| AssessmentQuestions.ScoreNameExactly | rust/crates/tsinghua-kit-engine/src/assessment_read.rs:2411-2425 | A score name is found exactly when all lists scan and hold exactly one named input |
| AssessmentQuestions.InputsAreConserved | rust/crates/tsinghua-kit-engine/src/assessment_read.rs:2426-2469 | No input is lost and none is carried twice when they are sorted into comment and others |
| AssessmentQuestions.ScoreIsNotRangeChecked | rust/crates/tsinghua-kit-engine/src/assessment_read.rs:2503-2509 | Reading the page's own score accepts every 32-bit number, 8 among them, although a caller's scores must lie in 1..7 |
| AssessmentQuestions.ScoreInRangeExactly | rust/crates/tsinghua-kit-engine/src/assessment_read.rs:2503-2509 | For every text: the score read is in 1..7 if and only if the trimmed text is any number of zeros followed by one digit from 1 to 7 |
| AssessmentRuns.ReachableState | rust/crates/tsinghua-kit-engine/src/assessment_read.rs:1560-1577 | After any calls, the adapter's state is determined by the accepted list reads and the posts since: generation, names, routes and submitted rows |
| AssessmentRuns.AtMostOncePerEpoch | rust/crates/tsinghua-kit-engine/src/assessment_read.rs:1777-1833 | Over every run, no row is posted twice between two accepted list reads: not with cloned evaluations, not after a failed answer, not after a call abandoned past the mark |
| AssessmentRuns.AtMostOncePerGeneration | rust/crates/tsinghua-kit-engine/src/assessment_read.rs:1777-1833 | Up to 2^64 accepted reads, at most one post leaves for each generation and row |
| AssessmentRuns.SubmitExactly | rust/crates/tsinghua-kit-engine/src/assessment_read.rs:1772-1833 | Over every run: a submission leaves exactly when the evaluation is of this adapter, of the latest accepted list and one of its rows, that row was not posted since, and the body is within its limit; it is posted as it stands, and otherwise nothing changes |
| AssessmentRuns.ForeignIsNeverPosted | rust/crates/tsinghua-kit-engine/src/assessment_read.rs:1781-1783 | An evaluation of another adapter is never posted and changes nothing |
| AssessmentRuns.RefusedExactly | rust/crates/tsinghua-kit-engine/src/assessment_read.rs:1781-1812 | Which error refuses a submission, read off the history of the calls, in the order of the checks |
| AssessmentRuns.ReadFormExactly | rust/crates/tsinghua-kit-engine/src/assessment_read.rs:1708-1762 | Over every run: a form read answers with an evaluation exactly for a reference of this adapter and the latest accepted list, and the evaluation is the server's form under that reference and the row's own name |
| AssessmentRuns.SupersededIsNeverPosted | rust/crates/tsinghua-kit-engine/src/assessment_read.rs:1784-1803 | An evaluation of a superseded generation is never posted and changes nothing, up to 2^64 accepted reads |
| AssessmentRuns.StaleExactly | rust/crates/tsinghua-kit-engine/src/assessment_read.rs:1708-1730 | Without that bound: an older reference or evaluation is refused as stale exactly when the two epochs are not congruent modulo 2^64 |
| AssessmentRuns.SupersededIsPostedAfterWrap | rust/crates/tsinghua-kit-engine/src/assessment_read.rs:1784-1803 | A run: an evaluation of the first list is posted after 2^64 further accepted list reads |
| AssessmentRuns.MintedRefs | rust/crates/tsinghua-kit-engine/src/assessment_read.rs:1626-1672 | An accepted list read hands out exactly one reference for each row, of the epoch it begins |
| AssessmentRuns.ResolvesExactlyLatest | rust/crates/tsinghua-kit-engine/src/assessment_read.rs:1681-1693 | A reference resolves to a route if and only if this adapter minted it in its latest accepted list read (modulo the wrap) and the route is that row's |
| AssessmentRuns.FormReadsExactlyLatest | rust/crates/tsinghua-kit-engine/src/assessment_read.rs:1708-1730 | A form read goes to that route under the same condition, over every run |
| AssessmentRuns.ResolvedRoutesAreSafe | rust/crates/tsinghua-kit-engine/src/assessment_read.rs:2132-2134 | Every route any reference ever resolves to was accepted by the route validator, so decoding it adds no path segment and no `..` |
| AssessmentRuns.ReadsChangeNothing | rust/crates/tsinghua-kit-engine/src/assessment_read.rs:1626-1663 | A rejected list read and any form read leave state and history as they were |
| AssessmentRuns.UnconfirmedExactly | rust/crates/tsinghua-kit-engine/src/assessment_read.rs:1808-1840 | The unconfirmed flag is set exactly when the most recent dispatched submit to finish since the latest accepted read failed |
| AssessmentRuns.FlagIsRightExactly | rust/crates/tsinghua-kit-engine/src/assessment_read.rs:1835-1843 | Over every run: the flag is never set unless some dispatched submission is unconfirmed; and it says so correctly exactly when there is none, or one failed and neither an accepted list read nor another confirmation came since |
| AssessmentRuns.UnconfirmedIsMissed | rust/crates/tsinghua-kit-engine/src/assessment_read.rs:1835-1843 | Three runs in which it does not: the submission was abandoned, or it failed and another row was confirmed, or it failed and the list was read again |
| AssessmentAdapters.AssessmentAdapter.ReadListPage | rust/crates/tsinghua-kit-engine/src/assessment_read.rs:1626-1672 | The object's list read is one step of the run: new references on success, nothing changed on a rejected page |
| AssessmentAdapters.AssessmentAdapter.ResolveFormPath | rust/crates/tsinghua-kit-engine/src/assessment_read.rs:1681-1693 | A route for the references of the latest list and for no other |
| AssessmentAdapters.AssessmentAdapter.ReadFormPage | rust/crates/tsinghua-kit-engine/src/assessment_read.rs:1708-1750 | A form read refuses foreign, stale and unknown references before it looks at the answer, and changes no state |
| AssessmentAdapters.AssessmentAdapter.SubmitForm | rust/crates/tsinghua-kit-engine/src/assessment_read.rs:1777-1833 | One submit makes at most one post, marks the row before the body leaves, and never repeats a post of this adapter's life |
| AssessmentRoutes.AcceptedRouteKeepsSegments | rust/crates/tsinghua-kit-engine/src/assessment_read.rs:2632-2706 | For every accepted route: path and optional query rebuild it, percent-decoding commutes with splitting on `/`, and no decoded segment is `..` |
| AssessmentRoutes.RouteAcceptedExactly | rust/crates/tsinghua-kit-engine/src/assessment_read.rs:2632-2705 | Which routes are accepted, by their characters alone: from a leading slash, at most 512 bytes, no scheme, fragment, backslash or control character, every escape complete and none for a dot, slash, backslash or control byte, no `..` before the first `?` and something after it; and then the route is cut there |
| AssessmentRoutes.DecodeCommutesWithSplit | rust/crates/tsinghua-kit-engine/src/assessment_read.rs:2680-2706 | For every text free of broken and forbidden escapes, decoding and splitting commute |
| AssessmentRoutes.EscapesAddNothingForbidden | rust/crates/tsinghua-kit-engine/src/assessment_read.rs:2687-2706 | A dot, slash, backslash or control byte in the decoded text was written literally in the route |
| AssessmentRoutes.SplitOnce | rust/crates/tsinghua-kit-engine/src/assessment_read.rs:2658-2661 | The route is cut at its first `?`, if any |
| BankYears.ParseYears | rust/crates/tsinghua-kit-engine/src/bank_read.rs:1205-1228 | The loop with its early exit returns the first-occurrence list of the accepted values, or the error for none or for more than 96 |
| BankYears.ParseYearsPage | rust/crates/tsinghua-kit-engine/src/bank_read.rs:1205-1228 | On the page's text: the values are those of its outermost `option` elements, and any failed scan is reported as too large |
| BankYears.UniqueIsFirstOccurrences | rust/crates/tsinghua-kit-engine/src/bank_read.rs:1211-1220 | The kept values are distinct, the same set, and in order of first occurrence |
| BankYears.ParsedYears | rust/crates/tsinghua-kit-engine/src/bank_read.rs:1205-1228 | The years are the distinct values that options offer trimmed, of 1 to 32 bytes and without control characters, in the order in which they are first offered; none of them is one error and more than 96 the other |
| BankYears.BatchesPartition | rust/crates/tsinghua-kit-engine/src/bank_read.rs:803-816 | The batches concatenate to the years, hold 1 to 4 each and are as few as that allows |
| BankYears.BatchLimitIsNeverMet | rust/crates/tsinghua-kit-engine/src/bank_read.rs:91-96 | Years that were accepted never need more than 24 batches, so the batch-overflow error is unreachable |
| BankYears.EncodeYearForm | rust/crates/tsinghua-kit-engine/src/bank_read.rs:1159-1179 | The loops over years and bytes compute the body of a batch |
| BankYears.YearFormRoundTrip | rust/crates/tsinghua-kit-engine/src/bank_read.rs:1159-1179 | Decoding the body of any batch gives back its years |
| BankYears.LedgerExactly | rust/crates/tsinghua-kit-engine/src/bank_read.rs:801-817 | Batches go out in order up to and including the first that fails, whose error is the answer; when none fails, the answer is the months of all of them in order |
| BankYears.BankPaymentAdapter.ReadLedger | rust/crates/tsinghua-kit-engine/src/bank_read.rs:800-839 | The batches go out in order up to the first failure; the months are all answers concatenated, at most 512; the generation moves exactly on success |
| BankReceipts.HeaderExactly | rust/crates/tsinghua-kit-engine/src/bank_read.rs:1298-1316 | A header is located if and only if its cells were read and hold every label, and then each column is the first cell of its label |
| BankColumns.LabelIsVisible | rust/crates/tsinghua-kit-engine/src/bank_read.rs:1306-1309 | A header cell is compared by its visible characters; white space anywhere in it does not matter |
| BankColumns.ReceiptsAreUnderTheirLabels | rust/crates/tsinghua-kit-engine/src/bank_read.rs:1339-1425 | By the eleven labels written out: when a table parses, each text of a receipt is the bounded text of its own row's cell under its own label, and each amount is none for an empty cell and otherwise the cents of the cell under its label |
| BankColumns.RowsExactly | rust/crates/tsinghua-kit-engine/src/bank_read.rs:1339-1425 | Which result or error a table has: the rows before the first unreadable one count, the limit is met before a row is looked at, and that row decides between the end of the table, a missing column and a bad amount, each with its own number |
| BankColumns.BoundedExactly | rust/crates/tsinghua-kit-engine/src/bank_read.rs:1511-1513 | A cell's text is trimmed and cut after 512 characters |
| BankColumns.MonthsPairUp | rust/crates/tsinghua-kit-engine/src/bank_read.rs:1244-1268 | When a page parses, month k has the k-th heading and the receipts of the k-th table with a located header |
| BankColumns.DocumentFails | rust/crates/tsinghua-kit-engine/src/bank_read.rs:1249-1266 | Which error a page has: no months without headings and tables, then the two counts when they differ, then too many, and then that of the first table that is refused |
| BankReceipts.CellHeaderIsNotLocated | rust/crates/tsinghua-kit-engine/src/bank_read.rs:1300-1305 | A header whose `th` cells were read but are none is not located, whatever its `td` cells say |
| BankReceipts.PositionsAreDistinct | rust/crates/tsinghua-kit-engine/src/bank_read.rs:1298-1316 | The located columns are distinct, and the header row itself is wide enough for all of them |
| BankReceipts.Pigeonhole | rust/crates/tsinghua-kit-engine/src/bank_read.rs:117-132 | More distinct column numbers than n cannot all lie below n |
| BankReceipts.NarrowRowIsIncomplete | rust/crates/tsinghua-kit-engine/src/bank_read.rs:1339-1385 | A row of fewer than eleven cells can never be attributed, wherever the columns are |
| BankReceipts.ParseReceiptRows | rust/crates/tsinghua-kit-engine/src/bank_read.rs:1339-1425 | The row loop, with its limit and its special last row, returns the receipts of the specification; their number respects the limit |
| BankReceipts.ColumnOrderDoesNotMatter | rust/crates/tsinghua-kit-engine/src/bank_read.rs:1298-1425 | Rearranging the header and every full row by one permutation changes neither the receipts nor the error of the table |
| BankReceipts.DocumentColumnOrderDoesNotMatter | rust/crates/tsinghua-kit-engine/src/bank_read.rs:1236-1268 | Each table of a document may have its columns in its own order: months and errors stay the same |
| BankPages.PrintedTableIsRead | rust/crates/tsinghua-kit-engine/src/bank_read.rs:1298-1357 | Every table of a page printed escaped is read as the collapsed texts of its `th` and `td` elements, with the rows of its first `tbody` when it has any, as long as it stays within the limits of the scanner |
| BankMonths.MonthIsCanonical | rust/crates/tsinghua-kit-engine/src/bank_read.rs:1275-1291 | Whatever heading is recognized names a year of one to four digits and a month of one or two, and the service's own heading for that month is recognized as the same |
| BankMonths.HeadingNamesItsMonth | rust/crates/tsinghua-kit-engine/src/bank_read.rs:1275-1291 | Every such heading is recognized and names its month |
| BankMonths.HeadingIsRead | rust/crates/tsinghua-kit-engine/src/bank_read.rs:1275-1291 | A heading names its month whatever white space stands before, between and behind its parts |
| BankMonths.HeadingExactly | rust/crates/tsinghua-kit-engine/src/bank_read.rs:1275-1291 | Nothing else names a month: every text that does is such a heading of a year of one to four digits and a month of one or two |
| BankPages.ReadHeadings | rust/crates/tsinghua-kit-engine/src/bank_read.rs:1238-1243 | The loop over `strong` elements returns the months their visible texts name, in order, or the failure of the scan |
| BankPages.PrintedPageParses | rust/crates/tsinghua-kit-engine/src/bank_read.rs:1236-1268 | Every page printed escaped that stays within the limits of the scanner parses to the ledger its elements show: headings, tables and cells by their collapsed texts |
| BankPages.LedgerIsUnique | rust/crates/tsinghua-kit-engine/src/bank_read.rs:1236-1268 | A page's HTML parses to one ledger or error |
| BankPages.PageColumnOrderDoesNotMatter | rust/crates/tsinghua-kit-engine/src/bank_read.rs:1236-1268 | From HTML to result: permuting the `th` and `td` elements of each table of a printed page, each table in its own way, while the month headings stay, leaves the ledger or error that the page parses to unchanged |
| BankReceipts.ParseReceipts | rust/crates/tsinghua-kit-engine/src/bank_read.rs:1236-1268 | The document loops return one month for each heading, 1 to 512, and the missing-header error is unreachable |
| CacheValues.WrittenContentIsReadable | rust/crates/tsinghua-kit-engine/src/cache.rs:164-188 | Every content a write may install passes every check of a reader of the same schema and service: size, decimal timestamp, non-empty payload; only the reader's own payload type can refuse it |
| CacheValues.RejectionExactly | rust/crates/tsinghua-kit-engine/src/cache.rs:242-301 | A body is accepted if and only if it passes all six checks, and each rejection names the first check that fails; null, blank strings and empty arrays and objects count as no payload, numbers and booleans never do |
| CacheFiles.Disk.CreateTemporary | rust/crates/tsinghua-kit-engine/src/cache.rs:558-596 | The first of 64 candidate names that is free is taken; exhaustion is reported exactly when all are taken; no file is overwritten |
| CacheFiles.Disk.FillAndInstall | rust/crates/tsinghua-kit-engine/src/cache.rs:389-403 | At every step the target is the old entry or the complete synced content, and the temporary file is gone exactly after the rename |
| CacheFiles.Disk.WriteAtomically | rust/crates/tsinghua-kit-engine/src/cache.rs:377-409 | One step of the register; `Ok` means new content, an error means old or new, and new only if the rename happened; the same at every crash point; no temporary file stays after success or when the clean-up works; and exactly when a write succeeds |
| CacheFiles.Disk.RemoveCorrupt | rust/crates/tsinghua-kit-engine/src/cache.rs:494-504 | Only a regular file is removed, and a failure to remove is ignored |
| CacheFiles.Disk.ReadUnlocked | rust/crates/tsinghua-kit-engine/src/cache.rs:204-310 | The result and what is left of the file, for every outcome of every system call; one step of the register |
| CacheFiles.Disk.Probe | rust/crates/tsinghua-kit-engine/src/cache.rs:317-348 | The untyped probe returns the envelope the file holds if and only if the system lets it and the file is an envelope of supported size, whatever its schema and service; it never changes the file |
| CacheFiles.Disk.Clear | rust/crates/tsinghua-kit-engine/src/cache.rs:143-152 | Success means the path is empty, an error means nothing changed, and exactly when it succeeds; one step of the register |
| CacheFiles.Disk.Write | rust/crates/tsinghua-kit-engine/src/cache.rs:164-188 | After an accepted write, every read of that cache that the system lets through returns that payload; accepted or not, one step of the register |
| CacheFiles.RejectedFileIsGone | rust/crates/tsinghua-kit-engine/src/cache.rs:222-301 | A rejected file is removed, after which every reader finds nothing; and a file is removed only when its size or content was rejected |
| CacheRuns.StepKeeps | rust/crates/tsinghua-kit-engine/src/cache.rs:424-460 | Every step of any process, crash included, keeps the invariant of the lock, the history, the temporary files and the times |
| CacheRuns.RunKeeps | rust/crates/tsinghua-kit-engine/src/cache.rs:424-460 | So it holds in every state of every run |
| CacheRuns.MutualExclusion | rust/crates/tsinghua-kit-engine/src/cache.rs:424-460 | At most one process is inside the lock |
| CacheRuns.RunsAreLinearizable | rust/crates/tsinghua-kit-engine/src/cache.rs:177-181 | Over every interleaving of readers, writers, clearers and probes, with failures and crashes at any step, results and file contents are those of one register used serially, in an order that respects real time |
| CacheRuns.ReaderDeletesWhatItRejected | rust/crates/tsinghua-kit-engine/src/cache.rs:177-181 | A reader that deletes the file deletes exactly the content it found and rejected, never one written meanwhile |
| CacheRuns.ReadReturnsLatestWrite | rust/crates/tsinghua-kit-engine/src/cache.rs:195-202 | A read after a successful write, with nothing but quiet operations between, returns what was written, fails in the system, or is refused by its own checks |
| CacheRuns.NothingUntilNextWrite | rust/crates/tsinghua-kit-engine/src/cache.rs:204-310 | Once the file is gone, reads find nothing until the next write |
| CacheRuns.NoTemporaryFileIsLeft | rust/crates/tsinghua-kit-engine/src/cache.rs:598-619 | While nobody is inside, the temporary files are exactly those a crash or a failed removal gave up |
| CacheRuns.LeakedOnlyByFaults | rust/crates/tsinghua-kit-engine/src/cache.rs:598-619 | Apart from crashes, only a failed removal gives a temporary file up |
| CacheRuns.CrashIsLegal | rust/crates/tsinghua-kit-engine/src/cache.rs:377-409 | Wherever a process dies, the register took no step or one of its operation's steps |
| CacheRuns.WholeReadIsLegal | rust/crates/tsinghua-kit-engine/src/cache.rs:204-348 | A read or a probe run without interruption, as the object runs it, is one step of the register |
| ClientTables.MintedAreNew | rust/src/sdk_api.rs:1522-1550 | Identifiers handed out were never handed out before |
| ClientTables.MintedAreShown | rust/src/sdk_api.rs:1522-1550 | The rows show exactly the identifiers of the new table, each resolving to its own row's reference, and rows without a reference show none |
| ClientTables.MintedDiffer | rust/src/sdk_api.rs:1522-1550 | No two rows share an identifier |
| ClientTables.SeatsAreNew | rust/src/sdk_api.rs:1648-1680 | Every seat of an inventory answers to one of the new identifiers shown, and no two to the same |
| ClientRuns.CallEvolves | rust/src/sdk_api.rs:6567-6694 | Whatever the call and its answer, tables only lose handles or gain newly minted ones, and the two service-hall maps stay mutually inverse |
| ClientRuns.SentIsSpent | rust/src/sdk_api.rs:5419-5494 | A one-shot write sends only a handle that was live, and it is live no more |
| ClientRuns.AtMostOnce | rust/src/sdk_api.rs:5831-5880 | Over every run each one-shot handle (favorite, subscription, seat, reservation, questionnaire, device) is sent at most once, and every later call that presents it is refused |
| ClientRuns.SentOnce | rust/src/sdk_api.rs:5419-5494 | The list of everything a run sends repeats no handle; the object keeps it and every call of the object promises it |
| ClientRuns.DeadIsRefused | rust/src/sdk_api.rs:5701-5786 | A call that presents a dead handle is refused, changes nothing and sends nothing |
| ClientRuns.DeadStaysDead | rust/src/sdk_api.rs:5701-5786 | A handle that was issued and died never resolves again |
| ClientRuns.InventedIsRefused | rust/src/sdk_api.rs:6389-6408 | An identifier that was never issued is refused wherever it is presented |
| ClientRuns.InvalidatedIsRefused | rust/src/sdk_api.rs:6675-6694 | Past a login, code, captcha or logout call, every handle issued before it is refused for ever, library reservations excepted |
| ClientRuns.OnlyReservationsSurvive | rust/src/sdk_api.rs:6675-6694 | Of all one-shot handles, exactly the live library reservations can still be sent right after an invalidation |
| ClientRuns.ReservationOutlivesLogout | rust/src/sdk_api.rs:6675-6694 | A run: a reservation listed before a logout is sent for cancellation after it |
| ClientRuns.FailedReadsKeepTables | rust/src/sdk_api.rs:5691-5786 | A read that does not succeed leaves every table as it was, except the three that empty their own table before asking (questionnaires, devices, reserves) |
| ClientRuns.SocketsNameTheirSeats | rust/src/sdk_api.rs:1682-1705 | Each status is shown under the live identifier of its own seat in the latest inventory |
| ClientRuns.RunSeatsDiffer | rust/src/sdk_api.rs:5845-5852 | In every reachable state a seat identifier names one seat, so the search by value finds the only one |
| ClientHall.TaskKeepsItsIdentifier | rust/src/sdk_api.rs:4260-4306 | Between two context changes a task keeps the identifier it was first shown under, two tasks never share one, and each identifier still resolves to its task |
| ClientHall.ContextChangeEndsIdentifiers | rust/src/sdk_api.rs:4268-4274 | After a context change no identifier issued before it resolves to a task again |
| ClientHall.TaskLiveExactly | rust/src/sdk_api.rs:4260-4306 | In every reachable state an identifier resolves to a task exactly when a task page showed that task under it and neither an invalidation nor a fresh, live or stale phase page came after |
| ClientRuns.EnterContinues | rust/src/sdk_api.rs:4275-4296 | Entering a page of tasks keeps the two maps inverse, keeps known identifiers and mints only new ones |
| ClientHierarchy.StandsExactly | rust/src/sdk_api.rs:5281-6694 | In every reachable state and for every table but the service-hall tasks: a handle is live and stands for a reference exactly when the latest successful read of its table showed it on the row of that reference, nothing emptied the table since, and no call used it up; what empties a table and what uses a handle up are written out |
| ClientHierarchy.LiveExactly | rust/src/sdk_api.rs:5281-6694 | So the live handles of the news, the courses, the library, the reservations, the questionnaires and the devices are those of the latest successful read, less those spent since |
| ClientHierarchy.SpendTakesOne | rust/src/sdk_api.rs:5419-5494 | A one-shot write of a live handle takes that handle and no other, except that all device handles go together; it is sent exactly when it is live and, for a questionnaire, its answers translate |
| ClientHierarchy.ReserveTakesOne | rust/src/sdk_api.rs:5831-5858 | A reservation takes its seat and no other handle, and goes out exactly when window and seat are live |
| ClientHierarchy.RepliesExactly | rust/src/sdk_api.rs:5281-6631 | A call is refused exactly when it presents a dead handle or is otherwise unusable, and of the others exactly those without an answer fail; reads show rows and writes do not |
| ClientHierarchy.ParentIsLive | rust/src/sdk_api.rs:5701-5786 | The handle through which a level was last read is still live one level up |
| ClientHierarchy.SeatsComeFromLatestRead | rust/src/sdk_api.rs:5766-5786 | Every seat that can be reserved was shown, under that identifier and for that seat, by the read the live inventory comes from |
| ClientHandles.ClientHandle.LibraryDirectory | rust/src/sdk_api.rs:5691-5699 | Step by step on the tables, one more call of the run: all levels below are emptied, only after the read succeeded |
| ClientHandles.ClientHandle.LibraryFloors | rust/src/sdk_api.rs:5702-5716 | The same one level down; refused without a live library handle |
| ClientHandles.ClientHandle.LibrarySections | rust/src/sdk_api.rs:5719-5743 | The same for sections; a day it does not know is refused before the handle is looked at and changes nothing |
| ClientHandles.ClientHandle.LibraryTimeWindows | rust/src/sdk_api.rs:5746-5764 | The same for opening windows |
| ClientHandles.ClientHandle.LibrarySeats | rust/src/sdk_api.rs:5767-5786 | The inventory and the reversed seat table are replaced together |
| ClientHandles.ClientHandle.LibrarySockets | rust/src/sdk_api.rs:5789-5802 | All statuses are named or the whole read is refused; no table changes |
| ClientHandles.ClientHandle.LibraryReservations | rust/src/sdk_api.rs:5810-5818 | Only the reservation table is replaced |
| ClientHandles.ClientHandle.LibraryReserve | rust/src/sdk_api.rs:5831-5858 | The seat is looked up by identifier and taken out before it is sent; a dead window or seat sends nothing |
| ClientHandles.ClientHandle.LibraryCancel | rust/src/sdk_api.rs:5865-5880 | The reservation is taken out before it is sent |
| ClientHandles.ClientHandle.LibrarySetSocketState | rust/src/sdk_api.rs:5895-5920 | Neither handle is used up |
| ClientHandles.ClientHandle.ServiceHallTasks | rust/src/sdk_api.rs:5244-5257 | The two maps are emptied exactly on a context change and extended row by row |
| ClientHandles.ClientHandle.NewsCatalog | rust/src/sdk_api.rs:5283-5290 | Both selector tables are replaced together |
| ClientHandles.ClientHandle.NewsArticles | rust/src/sdk_api.rs:5293-5409 | All filter handles must be live; the article table is replaced only on success |
| ClientHandles.ClientHandle.NewsSubscriptions | rust/src/sdk_api.rs:5381-5387 | The subscription table is replaced only on success |
| ClientHandles.ClientHandle.NewsFavorite | rust/src/sdk_api.rs:5419-5442 | Adding and removing a favorite take the article out before they send it |
| ClientHandles.ClientHandle.NewsRemoveSubscription | rust/src/sdk_api.rs:5482-5494 | The subscription is taken out before it is sent |
| ClientHandles.ClientHandle.LearnCourses | rust/src/sdk_api.rs:5552-5560 | A successful course read empties homework and files |
| ClientHandles.ClientHandle.LearnHomework | rust/src/sdk_api.rs:5581-5597 | Refused without a live course; replaces the homework table |
| ClientHandles.ClientHandle.LearnFiles | rust/src/sdk_api.rs:5617-5633 | Refused without a live course; replaces the file table |
| ClientHandles.ClientHandle.AssessmentList | rust/src/sdk_api.rs:6380-6387 | The table is emptied before the read, so a failed one leaves it empty |
| ClientHandles.ClientHandle.AssessmentSubmit | rust/src/sdk_api.rs:6420-6451 | The handle is used up even when the answers do not translate and nothing is sent |
| ClientHandles.ClientHandle.OnlineDevices | rust/src/sdk_api.rs:6597-6606 | The table is emptied before the read |
| ClientHandles.ClientHandle.DisconnectDevice | rust/src/sdk_api.rs:6618-6631 | One device is sent and every device handle goes |
| ClientHandles.ClientHandle.InvalidateAuthBound | rust/src/sdk_api.rs:6675-6694 | Every table but the library reservations is emptied |

## Left out

- HTTP, redirects, content types, origins, cookies, sessions: a server or the inner client is an arbitrary answer given to the call.
- The inner client's own re-checks of a handle (that a seat belongs to its window, say): its code is not part of this model.
- Overlapping calls on one questionnaire adapter: a call is one step. The check and the mark of a submission are separate critical sections in the source, so at-most-once is claimed for calls that do not overlap, as the facade makes them.
- Poisoned mutexes and cancelled reads in the adapters; a submission abandoned after its mark is modelled.
- `classify_page`, `guard_page`, `has_class`: pages are taken after the page guard.
- BankPages.PageParses: says what a payroll page parses to when none of its scans and texts panics; which cells the source decodes before it gives up is not modelled.
- BankPages.PageColumnOrderDoesNotMatter: pages are those a printer makes of an element forest and that stay within the scanner's limits, not every HTML text.
- `money::exact_cents`: an arbitrary function from text to an optional amount.
- The other parsers of the form page (transaction fields, overall comment, people tables) and of the questionnaire list: they loop over scans in the way `AssessmentQuestions` does.
- JSON: a cache file is no JSON, JSON of another shape, or an envelope; the size of a serialized envelope is a parameter; a reader's payload type is an arbitrary predicate.
- File permissions, symbolic links, directory creation, power loss between sync and rename: each is a system call that may fail, or absent; a permission that cannot be tightened counts as such a failure. Programs that touch the cache without its lock are not modelled.
- CacheRegister.Legal: an operation that fails in the system is only said to leave the register as it was or to take its own step, because any call may fail at any time.
- Sports selectors: their handles are the runtime's own selectors, not random identifiers, so their single use rests on code outside this model. Their two tables, which the invalidation also empties, are not modelled.
- Calls of the handle that read one thing through one handle are one request `Look` of `ClientTables`, without a method each; `news_articles`, `news_search`, `news_favorites` and `news_subscription_articles` share a method because they differ only in their handles; `invoice_list_result`, `reserves_search_result` and `classroom_buildings` are requests of the runs, without a method each.
- The fields of the handle's answers other than identifiers, and the conversions between enumerations.
- Telemetry, `Debug` redaction, error codes, timing, the async runtime.
