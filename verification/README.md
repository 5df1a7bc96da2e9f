# icalkit, modelled and proved

icalkit reads calendar files, keeps every octet of them, and writes them back. This project models
the parts of it where that promise is kept or could be lost, and proves what they promise:

- **Reading** (`Octets`, `Characters`, `Budget`, `Syntax`, `Grammar`, `QuotedValues`, `HeaderMachine`,
  `Lexer`, `Nesting`, `Ledger`, `Parse`). `Grammar` states the content-line grammar in two stages,
  unfolding and then splitting, and `QuotedValues` proves that the second reads exactly the lists of
  quoted and plain values section 3.2 of RFC 5545 writes down. `Lexer` is the one-pass reader as a
  class, proved against those stages. `Nesting` is the tree of components as a value, `Parse` the
  builder that updates it, charging the `Budget.Meter` as `Ledger` says.
- **Writing** (`RecordedFolds`, `Refold`, `Emit`). The line writer puts recorded folds back or refolds
  at 74 octets, and the serializer walks the tree on an explicit stack.
- **Both together** (`RoundTrip`, `Bare`, `ReadBack`, `Layout`, `Documents`). `RoundTrip.RoundTripIff`
  is the law the repository is for: serialize after parse is the identity, with the exact condition.
  `Documents.ReadsBackIff` is the other direction: which documents are read back from what they are
  written as.
- **Writes** (`Escape`, `Mutate`, `Replacements`, `Writes`, `Authored`, `Runs`, `Bounds`, `Losses`). Scoped changes are all or
  nothing and reach only the octets they name. `Runs.StepReadsBackIff` says of every accepted change
  exactly when the file is still the document by the grammar; `Bounds.StepReopensIff` adds the caller's
  bounds, under which the reader refuses a file it could otherwise read, and
  `Bounds.EveryRunReopensIff` says it over whole runs. `Losses` holds files on which a change fails.
- **Values** (`Gregorian`, `Arith`, `Digits`, `DateTimes`, `Durations`, `Periods`, `Text`, `Binary`).
- **Step machines** (`Scheduling`, `CalDav`, `AllocationGate`) and the normalizer (`LineEndings`).

Values the source passes around are datatypes; what it updates in place is a class whose methods are
proved against functions on those values. The tree itself is a value (`Syntax.Component`); the
component a write is applied to is `Mutate.EditableComponent`, and `Documents.Put` is the document with
the written component in its place. Octets are the newtype `octet`; the source's integer widths appear
where they decide something (32-bit bounds and fold offsets, 64-bit checked arithmetic, 32-bit month
totals). What a method and its specification both rest on, a delimiter, a terminator, an escape, the form of
a number, is stated once more in plain octets, so that neither can be wrong together with the other.

## Where the code keeps less than its documentation says

- `docs/adr/0001-lossless-round-trip.md` promises octet identity for every input. A fold's offset is
  held in 32 bits and saturates, so a line folded past its 2^32nd octet is written with that fold
  moved. `RoundTrip.RoundTripIff` gives the exact condition, `RoundTrip.RoundTripFailsPast32Bits` an
  input the reader accepts, and `RoundTrip.RoundTripWithinBounds` the bounds under which there is none:
  both named policies are such bounds.
- A write asserts the separator of its line. On a line that ended inside a quoted parameter the `:`
  lands inside the quotes and the line does not read back as written: `Writes.RewriteReadsBackIff`,
  with `Losses.OpenQuoteSwallowsValue` as the file.
- An added line keeps the terminator its author wrote, and a removal brings two lines together. A bare
  CR above octets that open with LF is one terminator to the next reader:
  `Writes.AdditionReadsBackIff`, `Writes.RemovalReadsBackIff`, `Runs.RemoveNamedReadsBackIff`, with
  `Losses.AdditionLosesTheEnd` and `Losses.RemovalLosesALine` as the files.
- A guarded write does not bound its value, nor a parameter edit the header it makes, and the reader
  refuses a whole file for one line over a bound: an accepted change can leave a file its own policy does
  not open.
  `Bounds.StepReopensIff` is the exact condition, `Losses.LongValueIsNotReopened` the file.
- Section 3.3.6 of RFC 5545 lets seconds follow hours only after minutes. The reader takes each clock term
  or leaves it, as `Durations.DecodeDurationIff` says.
- The reader of a `TZID` does not undo the caret encoding its writer applies, a period that mixes a
  zoned and a floating bound comes back with both zoned, and a span of a negative day in seconds comes
  back as a day: `Periods.DateTimeSetReadsBackIff`, `Periods.PeriodSetReadsBackIff`,
  `Durations.DurationRoundTrip`, with `Periods.CaretZoneComesBackDoubled`, `Periods.MixedComesBackZoned`
  and `Durations.NegativeDayInSeconds`.

## Model

| member | source | states |
|---|---|---|
| Grammar.ReadLogicalShape | crates/icalkit/src/internal/core/grammar/lexer.rs:224-263 | An unfolded line holds no CR or LF, its folds lie inside it in order, only the last line of an input may lack a terminator, and no later line opens with whitespace |
| Grammar.AssembleSplit | crates/icalkit/src/internal/core/grammar/lexer.rs:303-327 | Splitting a line into name, parameters, separator and value loses no octet, on any octets |
| Grammar.SplitReads | crates/icalkit/src/internal/core/grammar/lexer.rs:429-516 | Whatever a line splits into satisfies the readable-header condition, an open quote only at the very end of the line |
| Grammar.SplitAssembleIff | crates/icalkit/src/internal/core/grammar/lexer.rs:303-516 | A header reads back from its own octets exactly when it satisfies that condition: both directions, all headers |
| Grammar.UnfoldsAt | crates/icalkit/src/internal/core/grammar/lexer.rs:224-402 | In octets: a CR LF, LF or CR with SP or HTAB behind it is taken out with that octet and the line goes on; any other ends the line and leaves what is behind it untouched |
| QuotedValues.ValueReadsIff | crates/icalkit/src/internal/core/grammar/lexer.rs:444-516 | The values a parameter can have are exactly lists joined by commas, each element plain or a quoted string and plain text; those that leave a quote open are exactly such lists cut short inside a quoted string |
| QuotedValues.SpelledLineSplits | crates/icalkit/src/internal/core/grammar/lexer.rs:303-516 | A line spelled by the grammar of section 3.2, in octets, splits into its name, its parameters in order with their whole lists, and everything behind the colon |
| QuotedValues.UnseparatedLineSplits | crates/icalkit/src/internal/core/grammar/lexer.rs:303-516 | One without a colon outside quotes splits into a name and parameters and nothing else |
| QuotedValues.QuotedListSplits | crates/icalkit/src/internal/core/grammar/lexer.rs:462-468 | Every one of several values between DQUOTEs, joined by commas, is quoted: no colon or semicolon inside any of them ends the parameter |
| QuotedValues.LateQuoteIsText | crates/icalkit/src/internal/core/grammar/lexer.rs:444-470 | A DQUOTE behind plain text is no quote: the colon after it ends the header |
| Octets.EqIgnoreCaseIff | crates/icalkit/src/internal/core/parse.rs:749-876 | Names are compared with the case of A to Z ignored and of nothing else |
| Characters.DelimitersAre | crates/icalkit/src/internal/core/grammar/lexer.rs:429-516 | The delimiters are the ASCII characters they are written as |
| Characters.WidthsAre | crates/icalkit/src/internal/core/codec.rs:88-103 | The bounds of checked arithmetic are the largest and smallest numbers of 16, 32 and 64 bits |
| HeaderMachine.StepContinue | crates/icalkit/src/internal/core/grammar/lexer.rs:429-470 | Feeding the header lexer one octet leaves the header of the whole line what splitting it in one go gives |
| HeaderMachine.ContinueCloses | crates/icalkit/src/internal/core/grammar/lexer.rs:495-516 | At the end of the line or at a : outside quotes, what was fed is that header |
| HeaderMachine.StepLength | crates/icalkit/src/internal/core/grammar/lexer.rs:415-426 | Each header octet adds one to the header's length, and a ; outside quotes adds one parameter |
| HeaderMachine.ContinueGrows | crates/icalkit/src/internal/core/grammar/lexer.rs:415-426 | The finished header is at least as long as what was fed, so a crossed bound stays crossed |
| Lexer.ContentLineReader.TakeFold | crates/icalkit/src/internal/core/grammar/lexer.rs:383-402 | A terminator is consumed as a fold exactly when whitespace follows it, recorded at its saturated offset, or refused at the fold bound |
| Lexer.ContentLineReader.AdvanceLineOffset | crates/icalkit/src/internal/core/grammar/lexer.rs:409-412 | The line offset advances and saturates at 32 bits |
| Lexer.ContentLineReader.ClosePending | crates/icalkit/src/internal/core/grammar/lexer.rs:505-516 | Closing the open parameter leaves exactly the header's parameters recorded as spans of the scratch buffer |
| Lexer.ContentLineReader.OpenParameter | crates/icalkit/src/internal/core/grammar/lexer.rs:473-482 | A ; outside quotes closes what was open and opens a parameter, or is refused at the parameter bound |
| Lexer.ContentLineReader.StepUnquoted | crates/icalkit/src/internal/core/grammar/lexer.rs:444-470 | The header state after an octet that is neither ; nor inside quotes |
| Lexer.ContentLineReader.StepHeaderState | crates/icalkit/src/internal/core/grammar/lexer.rs:429-441 | The header state after any octet that does not end the header |
| Lexer.ContentLineReader.AppendHeaderOctet | crates/icalkit/src/internal/core/grammar/lexer.rs:415-426 | One header octet is appended, or refused at the header bound, the header so far still agreeing with the whole line's split |
| Lexer.ContentLineReader.ScanHeader | crates/icalkit/src/internal/core/grammar/lexer.rs:303-327 | The header scan stops at the separator or the line's end with the header the grammar says |
| Lexer.ContentLineReader.NextValueChunk | crates/icalkit/src/internal/core/grammar/lexer.rs:330-358 | Each chunk is the next run of the value, and the last one leaves the cursor at the next line |
| Lexer.ContentLineReader.ScanToBreak | crates/icalkit/src/internal/core/grammar/lexer.rs:361-369 | The scan stops at the first CR or LF, or at the end of the input |
| Lexer.ContentLineReader.MaterializeParameters | crates/icalkit/src/internal/core/grammar/lexer.rs:519-551 | The spans recorded for a header read out as its parameters, in order |
| Lexer.ContentLineReader.ReadValue | crates/icalkit/src/internal/core/parse.rs:586-595 | The value is its chunks joined, refused at the chunk that crosses the caller's bound |
| Lexer.ContentLineReader.NextLine | crates/icalkit/src/internal/core/grammar/lexer.rs:224-300 | One pass delivers exactly the two-stage reading of the next line; it is refused exactly when the line crosses a bound, naming one it crosses, and a refusal ends the reader |
| Budget.Meter.ChargeBytes | crates/icalkit/src/internal/core/grammar/budget.rs:808-838 | Octets are charged, saturating at 64 bits; over the budget the charge is refused, and so is every later one |
| Budget.Meter.ChargeItem | crates/icalkit/src/internal/core/grammar/budget.rs:847-856 | An item is charged exactly when there is room for it, and a refusal charges nothing |
| Budget.Meter.Enter | crates/icalkit/src/internal/core/grammar/budget.rs:872-881 | A component is opened exactly when the depth bound allows one more |
| Budget.Meter.Leave | crates/icalkit/src/internal/core/grammar/budget.rs:887-889 | Closing a component lowers the depth, never below zero |
| Ledger.TakeCounts | crates/icalkit/src/internal/core/parse.rs:791-876 | A line adds one item unless it is the END that closes a component, and only a BEGIN can make the tree deeper |
| Ledger.BuildCounts | crates/icalkit/src/internal/core/parse.rs:749-913 | The items counted and the depth reached while a tree is built are those of the finished tree, for every list of lines |
| Ledger.ItemsAndEnds | crates/icalkit/src/internal/core/parse.rs:791-876 | The items of a tree and the ENDs that closed its components are together its lines, for every tree |
| Nesting.AsPropertyKeepsSpans | crates/icalkit/src/internal/core/emit.rs:180-214 | A boundary and the property it also is are pushed in the same spans with the same layout |
| Nesting.PushLines | crates/icalkit/src/internal/core/parse.rs:879-885 | Pushing an entry appends its lines after every line stored so far |
| Nesting.CloseAddsLine | crates/icalkit/src/internal/core/parse.rs:834-876 | Closing the innermost component adds its END line and moves nothing |
| Nesting.BuildKeepsLines | crates/icalkit/src/internal/core/parse.rs:486-496 | The lines of the tree are the lines it was built from, in the order they were read, for every list of lines |
| Nesting.BuildIsWellNested | crates/icalkit/src/internal/core/parse.rs:749-913 | Every tree built is well nested: no property could have been a boundary where it stands, only the last component may lack an END |
| Nesting.RebuildIff | crates/icalkit/src/internal/core/parse.rs:749-913 | A tree is the one its own lines build exactly when it is well nested: nesting is determined by the lines |
| Nesting.SpelledComponentIsBuilt | crates/icalkit/src/internal/core/parse.rs:749-876 | Lines between BEGIN and an END of the same name, each in any case of its letters and spelled in octets, are that component's properties; an END that names another is a property too and the component has no END |
| Parse.TreeBuilder.PushItem | crates/icalkit/src/internal/core/parse.rs:879-885 | The entry becomes the last one at the current depth |
| Parse.TreeBuilder.StoreProperty | crates/icalkit/src/internal/core/parse.rs:791-803 | A property is stored exactly when the ledger has room for the tree with it |
| Parse.TreeBuilder.OpenComponent | crates/icalkit/src/internal/core/parse.rs:805-827 | A BEGIN opens a component on the stack exactly when the ledger has room for one more item and one more level; a refusal names the bound |
| Parse.TreeBuilder.CloseOpen | crates/icalkit/src/internal/core/parse.rs:863-876 | The innermost component is closed with its END and becomes an entry of the one above |
| Parse.TreeBuilder.CloseComponent | crates/icalkit/src/internal/core/parse.rs:834-857 | An END closes the innermost component it names, compared without case and free of charge, and otherwise stays a property |
| Parse.TreeBuilder.FinishLine | crates/icalkit/src/internal/core/parse.rs:749-789 | A line is stored as a property, a BEGIN or an END by the one recovery rule, exactly when the ledger has room for the tree it makes |
| Parse.TreeBuilder.IntoItems | crates/icalkit/src/internal/core/parse.rs:888-913 | At the end of the input every open component is closed without an END, innermost first |
| Parse.ChargeLine | crates/icalkit/src/internal/core/parse.rs:542-595 | The octets of a line's name, parameters, value and folds are charged, exactly when the budget has room for their sum |
| Parse.ParseDocument | crates/icalkit/src/internal/core/parse.rs:65-96 | An input is read exactly when every line is within the bounds on a line and the whole within the bounds on octets, items and depth, into the tree of its lines; a refusal names a bound the input crosses |
| Parse.InputIsCharged | crates/icalkit/src/internal/core/parse.rs:542-595 | Every octet of an input is charged for, as part of a name, a value or a fold, or is one of its delimiters or terminators, which are free: the two add up to its length |
| Parse.AcceptsIff | crates/icalkit/src/internal/core/grammar/budget.rs:808-881 | An input is accepted exactly when every line is within its bounds, its length less its delimiters and terminators is at most the octet bound, and its items and its depth at most theirs, a bound that is the counter's maximum binding nothing |
| Parse.NamedPoliciesBound | crates/icalkit/src/internal/core/grammar/budget.rs:206-248 | The named policies let in 16 MiB or 512 of charged octets, 100,000 items or 5,000,000, and 32 levels or 64, and refuse one more of any |
| RecordedFolds.InjectAppend | crates/icalkit/src/internal/core/emit.rs:269-286 | However a line is divided into spans, the folds injected and the octets written are the same |
| RecordedFolds.RecordedIsReference | crates/icalkit/src/internal/core/emit.rs:269-286 | The one-sweep injection equals a position-by-position reference: fold k at the running maximum of offsets 0..k, equal offsets in order, none from the first past the end |
| RecordedFolds.InjectUndoesReading | crates/icalkit/src/internal/core/emit.rs:269-286 | Injecting the folds that were read, where they were read, gives the line's octets back |
| RecordedFolds.InjectSaturatedDiffers | crates/icalkit/src/internal/core/grammar/lexer.rs:409-412 | With offsets held in 32 bits the written line is the same exactly when every offset fits |
| RecordedFolds.InjectReadsBack | crates/icalkit/src/internal/core/emit.rs:269-286 | Reading a line written with any fold list gives back its content and the folds that were reached, and goes on with whatever comes after it |
| Refold.FoldAtFinds | crates/icalkit/src/internal/core/emit.rs:365-386 | The fold search answers the last codepoint boundary within three octets of the allowance, or that there is none |
| Refold.RefoldedShape | crates/icalkit/src/internal/core/emit.rs:296-321 | Refolding any spans keeps exactly their octets; no physical line is over 74, no continuation is empty, and the line never opens with bare SP or HTAB |
| Refold.CutOnBoundary | crates/icalkit/src/internal/core/emit.rs:305-317 | On spans that start on a codepoint and never have four continuation octets in a row, every cut is at a boundary: the splitting arm is never taken |
| Refold.RefoldedUnsplit | crates/icalkit/src/internal/core/emit.rs:296-321 | For such spans no fold of the line splits a codepoint, and every broken line is full to within three octets |
| Refold.RefoldedWidth | crates/icalkit/src/internal/core/emit.rs:50-55 | Measured on the octets written, no physical line is over 75 |
| Refold.RefoldedFolds | crates/icalkit/src/internal/core/emit.rs:296-321 | A refolded line has at most one fold for every 71 octets and one more for every span, whatever its octets |
| Refold.RefoldedReadsBack | crates/icalkit/src/internal/core/emit.rs:296-321 | Reading a refolded line gives back exactly the octets it was made of, UTF-8 or not, and goes on with whatever comes after it |
| Emit.WrittenIsPieces | crates/icalkit/src/internal/core/emit.rs:165-177 | Every line but the last is closed by its own terminator, or CR LF if it has none; the last is left as it is |
| Emit.WrittenCloses | crates/icalkit/src/internal/core/emit.rs:165-177 | In octets: each line is closed by its own terminator, by 13 10 if it has none and another follows, and the last by its own or by nothing |
| Emit.LineWriter.Push | crates/icalkit/src/internal/core/emit.rs:255-261 | After any pushes the sink holds the line of all the spans pushed, recorded or refolded |
| Emit.LineWriter.PushRecorded | crates/icalkit/src/internal/core/emit.rs:269-286 | The loop writes the injection of the folds the span reaches and keeps the rest pending |
| Emit.LineWriter.PushRefolded | crates/icalkit/src/internal/core/emit.rs:296-321 | The loop extends the physical lines as refolding says, and terminates on any octets, a cut of 0 included |
| Emit.LineWriter.Emit | crates/icalkit/src/internal/core/emit.rs:324-334 | Octets reach the sink and both counters count them |
| Emit.LineWriter.BreakLine | crates/icalkit/src/internal/core/emit.rs:340-345 | A fold writes a terminator and one whitespace octet and restarts the column only |
| Emit.LineWriter.Finish | crates/icalkit/src/internal/core/emit.rs:352-357 | The finished line is its body followed by its own terminator, if any |
| Emit.FindFold | crates/icalkit/src/internal/core/emit.rs:365-386 | The backward search finds the last boundary within a codepoint's reach |
| Emit.WriteBoundary | crates/icalkit/src/internal/core/emit.rs:180-189 | A BEGIN or END line is written as it was spelled |
| Emit.WriteProperty | crates/icalkit/src/internal/core/emit.rs:197-214 | A property is written name, parameters in order, separator if there was one, value |
| Emit.WriteLine | crates/icalkit/src/internal/core/emit.rs:165-177 | A line is preceded by the terminator the line above owed, and owes one exactly when it has none |
| Emit.WriteItems | crates/icalkit/src/internal/core/emit.rs:104-131 | The explicit stack writes, for every tree, the lines of the recursive traversal in order |
| Emit.ToBytes | crates/icalkit/src/internal/core/emit.rs:76-84 | The document's octets are those of its lines |
| RoundTrip.RoundTripIff | docs/adr/0001-lossless-round-trip.md:38-56 | Serializing what was parsed gives back the input octet for octet, for every input, exactly when no fold sits past a 32-bit offset in its line |
| RoundTrip.RoundTripShort | docs/adr/0001-lossless-round-trip.md:38-56 | Every input under four gibibytes comes back octet for octet |
| RoundTrip.RoundTripWithinBounds | crates/icalkit/src/internal/core/grammar/budget.rs:38-50 | Whatever its size, an input read under bounds whose header and value together stay within 32 bits comes back octet for octet |
| RoundTrip.RoundTripUnderNamedPolicies | crates/icalkit/src/internal/core/grammar/budget.rs:206-255 | Everything read under DEFAULT or GENEROUS comes back octet for octet |
| RoundTrip.RoundTripFailsPast32Bits | crates/icalkit/src/internal/core/grammar/lexer.rs:404-412 | An input every reader with a value bound of 2^32-1 accepts and that does not come back: a value of that length, folded before its last octet |
| RoundTrip.LayStored | crates/icalkit/src/internal/core/emit.rs:104-177 | The lines of an input, laid out again, are always as long as the input |
| RoundTrip.LineReadsBack | crates/icalkit/src/internal/core/emit.rs:197-214 | A line whose parts are readable reads back as the same name, parameters, value and terminator, however it was folded |
| RoundTrip.WrittenReadsBack | crates/icalkit/src/internal/core/emit.rs:133-177 | Readable lines that stay apart read back as the lines they are |
| ReadBack.ComesBackIff | crates/icalkit/src/internal/core/grammar/lexer.rs:303-516 | A line, terminated and read on its own, is that line exactly when its parts can be told apart |
| ReadBack.PieceCounts | crates/icalkit/src/internal/core/emit.rs:165-177 | A line in front of others adds a line to what is read exactly when it writes an octet and its terminator does not join what follows |
| ReadBack.CountOfLay | crates/icalkit/src/internal/core/emit.rs:165-177 | Readable lines laid out read as at most that many lines, and as that many exactly when they stay apart |
| ReadBack.LinesReadBackIff | docs/adr/0001-lossless-round-trip.md:38-56 | Any lines, laid out and read again, are the lines they were exactly when each is readable and none joins the next: both directions |
| Layout.RefoldedIsTame | crates/icalkit/src/internal/core/emit.rs:288-299 | A line this crate folds opens neither a continuation nor the second half of a CR LF, whatever its octets |
| Layout.LayAround | crates/icalkit/src/internal/core/emit.rs:165-177 | The octets around one line do not depend on the line |
| Authored.LineIsClosed | crates/icalkit/src/internal/core/grammar/syntax.rs:34-36 | Wherever a line stands its own octets are its body and what closes it: its own terminator, or 13 10 when it has none and is not the last |
| Layout.RewritingKeepsSeparated | crates/icalkit/src/internal/core/emit.rs:165-177 | Rewriting any lines keeps all lines apart |
| Layout.AddingKeepsSeparatedIff | crates/icalkit/src/internal/core/mutate.rs:723-770 | An added line keeps the lines apart exactly when its terminator does not join the octets below it |
| Layout.RemovingKeepsSeparatedIff | crates/icalkit/src/internal/core/mutate.rs:606-617 | A removed line keeps the others apart exactly when its neighbours can be neighbours |
| Layout.KeptSeparatedIff | crates/icalkit/src/internal/core/mutate.rs:777-788 | Any lines taken out leave the others apart exactly when no kept line ended by a bare CR has one that opens with LF as the next kept line, and the last kept line writes an octet |
| Bare.BareBuild | crates/icalkit/src/internal/core/parse.rs:749-913 | Building looks at nothing but names, parameters, values and separators: it commutes with forgetting folds and terminators |
| Documents.LinesOfBare | crates/icalkit/src/internal/core/emit.rs:104-131 | Forgetting folds and terminators of a tree and of its lines is the same |
| Documents.ReadsBackIff | docs/adr/0001-lossless-round-trip.md:38-56 | Reading a document's own octets gives every name, parameter, value and component boundary back exactly when it is well nested, every line is readable and no line joins the next: both directions, all documents |
| Documents.ReadsBackLineByLine | docs/adr/0001-lossless-round-trip.md:38-56 | What the next reader stores for such a document, line by line, folds and terminators included |
| Documents.ReadDocumentReadsBack | crates/icalkit/src/internal/core/parse.rs:65-96 | Every document that was read, from any octets, reads back |
| Documents.LinesOfPut | crates/icalkit/src/internal/core/emit.rs:104-131 | The lines of a document with one component exchanged, at any depth, are the lines above it, its own, and those below |
| Escape.EncodeCaretInto | crates/icalkit/src/internal/core/grammar/caret.rs:224-234 | The encoder writes an encoding that decodes to the value, for every value |
| Escape.DecodeCaretInto | crates/icalkit/src/internal/core/grammar/caret.rs:162-173 | The decoder resolves the pairs from left to right |
| Escape.DecodeEncodeCaret | crates/icalkit/src/internal/core/grammar/caret.rs:203-234 | Decoding undoes encoding on all octets |
| Escape.EncodeCaretIs | crates/icalkit/src/internal/core/grammar/caret.rs:203-234 | In octets: LF is written ^n, a caret ^^, a DQUOTE ^', and every other octet as itself |
| Escape.DecodeCaretIs | crates/icalkit/src/internal/core/grammar/caret.rs:133-173 | Those three pairs are resolved and a caret before anything else stands for itself |
| Escape.UndefinedCaretsStay | crates/icalkit/src/internal/core/grammar/caret.rs:133-173 | Text in which no caret has a meaning decodes to itself |
| Escape.WritableIff | crates/icalkit/src/internal/core/mutate.rs:116-118 | The writable parameter values are exactly those without a control octet other than LF |
| Escape.SpelledValueIs | crates/icalkit/src/internal/core/grammar/escape.rs:56-62 | A value is put between DQUOTEs exactly when it holds a semicolon, a colon or a comma, and is its caret encoding inside them or without them |
| Escape.RepresentableIff | crates/icalkit/src/internal/core/grammar/escape.rs:346-400 | A parameter name is accepted exactly when it is not empty and holds none of = ; : , DQUOTE and no control octet; a property name exactly when it is not empty and holds neither ; nor : nor a control octet; a parameter value exactly when it holds no control octet but LF |
| Escape.SpelledParameterReadsBack | crates/icalkit/src/internal/core/mutate.rs:160-164 | A parameter as this crate spells it reads back as one parameter, leaves no quote open, cannot end the line, and means the value handed over |
| Mutate.AssignedKeepsPlace | crates/icalkit/src/internal/core/mutate.rs:279-289 | An assignment goes where the first parameter of the name stood, moves nothing before it and drops only its repeats |
| Mutate.LastWriteWins | crates/icalkit/src/internal/core/mutate.rs:296-303 | After any edit list a name assigned last appears exactly once with that value, a name removed last not at all, a name never edited as it was |
| Mutate.EditsKeepTheRest | crates/icalkit/src/internal/core/mutate.rs:296-303 | Parameters no edit names keep their spelling and their order |
| Mutate.RefuseUnwritableEdits | crates/icalkit/src/internal/core/mutate.rs:131-144 | A list is refused exactly when one of its edits cannot be written back |
| Mutate.ReadReplacementLine | crates/icalkit/src/internal/core/mutate.rs:377-399 | A replacement is accepted exactly when it is one content line with a name and a separator inside the caller's bounds, and is what the reader makes of it; one whose value alone is over its bound is refused for that |
| Mutate.ReadNamedLine | crates/icalkit/src/internal/core/mutate.rs:407-417 | It is accepted for an identity exactly when it also names it |
| Replacements.SpelledLineIsOne | crates/icalkit/src/internal/core/mutate.rs:377-399 | A line spelled by the grammar, terminated or not, is accepted exactly when it has a name and its header, its parameters and its value are within the bounds, and is read as what was spelled |
| Replacements.UnseparatedIsRefused | crates/icalkit/src/internal/core/mutate.rs:377-399 | A line without a separator is refused |
| Replacements.TwoLinesAreRefused | crates/icalkit/src/internal/core/mutate.rs:377-399 | Two lines are refused, whatever they are |
| Replacements.NamedPoliciesAccept | crates/icalkit/src/internal/core/grammar/budget.rs:206-248 | Under the named policies a line is accepted exactly with a header of at most 4 KiB or 64, at most 64 parameters or 1024, and a value of at most 1 MiB or 64 |
| Replacements.SpelledLineCrosses | crates/icalkit/src/internal/core/grammar/lexer.rs:415-482 | The bounds a spelled line crosses, and so may be refused for, are exactly those its header, its parameters and its value are over |
| Mutate.ControlFreeIff | crates/icalkit/src/internal/core/mutate.rs:431-437 | What may be written raw is exactly what holds no octet below 32 and no DEL; and the names that name a boundary are exactly BEGIN and END in any case of their letters |
| Mutate.PropertyMut.AssignParameter | crates/icalkit/src/internal/core/mutate.rs:279-289 | The property's parameter list is assigned in place and nothing else of it changes |
| Mutate.PropertyMut.ApplyParameterEdits | crates/icalkit/src/internal/core/mutate.rs:296-303 | The whole list is applied in order, the folds go, the terminator stays |
| Mutate.PropertyMut.SetRaw | crates/icalkit/src/internal/core/mutate.rs:431-437 | A raw value is written exactly when the property is no boundary and the octets hold no control character; a refusal changes nothing |
| Mutate.PropertyMut.Set | crates/icalkit/src/internal/core/mutate.rs:446-465 | A typed value and its coupled parameters are written together or not at all |
| Mutate.CreateParameter | crates/icalkit/src/internal/core/mutate.rs:192-197 | A parameter is created exactly when name and value can be written, and means the value |
| Mutate.CreateProperty | crates/icalkit/src/internal/core/mutate.rs:222-238 | A property is created exactly when its name reads back, is no boundary and its value holds no control character |
| Mutate.CreateComponent | crates/icalkit/src/internal/core/mutate.rs:255-267 | A component is created with both boundaries spelled from one name |
| Authored.CreatedPropertyEnds | crates/icalkit/src/internal/core/mutate.rs:222-238 | A created property's octets are its line on physical lines of at most 74 octets joined by 13 10 32, and then 13 10; the line is its name, every parameter it was given, and its value |
| Authored.CreatedComponentEnds | crates/icalkit/src/internal/core/mutate.rs:255-267 | Both boundaries of a created component are BEGIN: or END: and its name, each closed by 13 10 |
| Authored.AddedLineEnds | crates/icalkit/src/internal/core/mutate.rs:723-740 | An added line is the name, the parameters and the value handed over; it ends as it was handed over, and in 13 10 when it had no terminator |
| Authored.RewrittenLineEnds | crates/icalkit/src/internal/core/mutate.rs:296-303 | A rewritten line is folded anew out of the parts the write gives it and its own for the rest, and keeps the terminator it had |
| Mutate.OccurrencePositionIs | crates/icalkit/src/internal/core/mutate.rs:633-644 | The position found is the one with exactly that many occurrences before it, and is found exactly when there is one |
| Mutate.WithoutIdTakesAll | crates/icalkit/src/internal/core/mutate.rs:777-788 | A removal by identity takes every occurrence and nothing else |
| Mutate.EditableComponent.Overwrite | crates/icalkit/src/internal/core/mutate.rs:696-705 | Every property of the identity is replaced whole and every other entry is untouched; absent exactly when there is none |
| Mutate.EditableComponent.EditParametersOf | crates/icalkit/src/internal/core/mutate.rs:525-546 | Every property of the identity gets the edits and every other entry is untouched |
| Mutate.EditableComponent.TerminateLineAbove | crates/icalkit/src/internal/core/mutate.rs:760-770 | The line above an insertion, property or BEGIN, is terminated if it was not |
| Mutate.EditableComponent.InsertAfterProperties | crates/icalkit/src/internal/core/mutate.rs:723-740 | The line goes after the last property, canonically laid out, with its own terminator or CR LF |
| Mutate.EditableComponent.RemoveNamed | crates/icalkit/src/internal/core/mutate.rs:777-788 | Every property of the identity goes, the rest keep their order, absent exactly when there was none |
| Mutate.EditableComponent.Apply | crates/icalkit/src/internal/core/mutate.rs:514-552 | A change is made exactly when it is well formed and addresses something; otherwise the component is what it was and the error says why |
| Mutate.EditableComponent.ApplyToOccurrence | crates/icalkit/src/internal/core/mutate.rs:578-621 | The same for one occurrence: exactly one entry changes, or none; an addition must name the append position |
| Mutate.RemovalShiftsLaterDown | crates/icalkit/src/internal/core/mutate.rs:606-617 | Removing an occurrence moves every later one down by one and no earlier one |
| Mutate.AdditionIsLast | crates/icalkit/src/internal/core/mutate.rs:723-740 | An addition is the new last occurrence of its identity |
| Writes.SeparatedLineComesBackIff | crates/icalkit/src/internal/core/grammar/lexer.rs:303-516 | A line with a separator comes back exactly when its name, every parameter and its value can be told apart and no quote is left open |
| Writes.EditedClosesIff | crates/icalkit/src/internal/core/mutate.rs:296-303 | An edit list leaves a quote open exactly when a parameter none of the edits is about had one open |
| Writes.RewrittenComesBackIff | crates/icalkit/src/internal/core/mutate.rs:171-177 | A rewritten line comes back exactly when no parameter the write leaves alone has an open quote; a line that had a separator always does |
| Writes.CreatedPropertyReadsIff | crates/icalkit/src/internal/core/mutate.rs:222-238 | A created property is never read as a boundary, and comes back exactly when the parameters it was given do |
| Writes.CreatedComponentNests | crates/icalkit/src/internal/core/mutate.rs:255-267 | A created component is well nested exactly when its entries are, and its boundary lines come back |
| Writes.RewriteReadsBackIff | crates/icalkit/src/internal/core/mutate.rs:514-552 | By the grammar, bounds apart, a write to any occurrences in a component at any depth leaves a document that reads back exactly when no line it rewrites has an open quote among the parameters the write leaves alone |
| Writes.WriteIsLocal | crates/icalkit/src/internal/core/mutate.rs:598-613 | A write to one occurrence changes that line's octets in the file and no others |
| Writes.AdditionIsLocal | crates/icalkit/src/internal/core/mutate.rs:742-770 | An addition inserts one terminated line, and one CR LF only when the line above was the unterminated last line of the file |
| Authored.AdditionAtTheEnd | crates/icalkit/src/internal/core/mutate.rs:742-770 | Added below the file's last line, a line's octets come behind the file's, after 13 10 exactly when that last line had no terminator |
| Writes.AdditionReadsBackIff | crates/icalkit/src/internal/core/mutate.rs:723-740 | After an addition the document reads back exactly when the new line's terminator does not join the octets below it |
| Writes.RemovalIsLocal | crates/icalkit/src/internal/core/mutate.rs:606-617 | A removal takes one line's octets out and leaves every other octet |
| Writes.RemovalReadsBackIff | crates/icalkit/src/internal/core/mutate.rs:606-617 | After a removal the document reads back exactly when the lines above and below the one removed can be neighbours |
| Runs.LinesOfRemoveNamed | crates/icalkit/src/internal/core/mutate.rs:777-788 | A removal by identity keeps the document's other lines, those of nested components included, in their order |
| Runs.RemoveNamedReadsBackIff | crates/icalkit/src/internal/core/mutate.rs:777-788 | After a removal by identity the document reads back exactly when, among the document's own lines, none that is kept joins the next kept one and the last kept one writes an octet |
| Runs.RemoveNamedReadsBack | crates/icalkit/src/internal/core/mutate.rs:777-788 | Where every line is terminated, none by a bare CR, a removal by identity always reads back |
| Runs.PerformsRewrite | crates/icalkit/src/internal/core/mutate.rs:514-621 | An accepted replacement, parameter edit or guarded value rewrites the entries it is addressed to, each by the same write, and no other |
| Runs.StepReadsBackIff | crates/icalkit/src/internal/core/mutate.rs:419-621 | By the grammar, bounds apart, every accepted step, whatever it is and at any depth, leaves a document that reads back exactly when it is permitted, which the document before the step decides |
| Runs.AcceptedReplacementReadsBack | crates/icalkit/src/internal/core/mutate.rs:514-621 | By the grammar, bounds apart, an accepted replacement always reads back: it states the whole line |
| Runs.SeparatedRewriteIsPermitted | crates/icalkit/src/internal/core/mutate.rs:419-621 | Rewrites of lines that had a separator always read back |
| Runs.OneOccurrenceIsOneLine | crates/icalkit/src/internal/core/mutate.rs:578-621 | An accepted change to one occurrence, a guarded value or an addition changes the octets of one line of the file and no others |
| Runs.EveryRunReadsBackIff | docs/adr/0001-lossless-round-trip.md:104-118 | By the grammar, bounds apart, over every run of accepted steps on a document read from any octets the file reads back as the document in memory after every step exactly when every step was permitted |
| Bounds.AdmittedIff | crates/icalkit/src/internal/core/parse.rs:65-96 | An input is admitted line by line exactly when every line it is stored as is within the bounds on a line |
| Bounds.AcceptsWrittenIff | crates/icalkit/src/internal/core/parse.rs:65-96 | What a document that reads back is written as is accepted exactly when its own lines, with the folds they are written with, its octets, items and depth are within the bounds |
| Bounds.ReadDocumentReopensIff | crates/icalkit/src/internal/core/parse.rs:65-96 | A document that was read is read back under bounds exactly when they accept the input it was read from |
| Bounds.StepWithinIff | crates/icalkit/src/internal/core/mutate.rs:419-621 | An accepted step keeps the file within the bounds exactly when every line it writes is within the bounds on a line and there is room for it |
| Bounds.StepReopensIff | crates/icalkit/src/internal/core/mutate.rs:419-621 | After an accepted step on a document the bounded reader gives back, it gives the new one back under the same bounds exactly when the step is permitted, the lines it writes are within bounds and there is room for them, all decided before the step |
| Bounds.EveryRunReopensIff | docs/adr/0001-lossless-round-trip.md:104-118 | Over every run of accepted steps on an accepted file, the reader accepts the file under the same bounds after every step and gives the document in memory back exactly when every step was so |
| Bounds.AuthoredWithinIff | crates/icalkit/src/internal/core/emit.rs:296-321 | Where the fold bound is roomy a line this crate lays out is within bounds exactly when its header, its parameter count and its value are |
| Bounds.NamedPoliciesAreRoomy | crates/icalkit/src/internal/core/grammar/budget.rs:206-255 | DEFAULT and GENEROUS have such fold bounds |
| Bounds.ValueWithinIff | crates/icalkit/src/internal/core/mutate.rs:431-437 | There a written value is within bounds exactly when it is no longer than a value may be |
| Bounds.ParametersWithinIff | crates/icalkit/src/internal/core/mutate.rs:296-303 | There an edited line is within bounds exactly when its header and its parameter count are |
| Bounds.AuthoredStepStaysAdmitted | crates/icalkit/src/internal/core/mutate.rs:514-621 | There an accepted replacement never writes a line the reader refuses, nor does a permitted addition; only room in the whole file is left to decide |
| Losses.LongValueIsNotReopened | crates/icalkit/src/internal/core/mutate.rs:431-437 | A file, and every value longer than the reader's bound: an accepted, permitted write leaves a file the reader refuses whole under the very bounds it was written under |
| Losses.OneLineAccepted | crates/icalkit/src/internal/core/grammar/budget.rs:206-248 | DEFAULT accepts that file before the write |
| Losses.RemovalLosesALine | crates/icalkit/src/internal/core/mutate.rs:606-617 | A file on which an accepted removal loses a line that was not removed |
| Losses.AdditionLosesTheEnd | crates/icalkit/src/internal/core/mutate.rs:723-740 | A file on which an accepted addition loses the END of its component |
| Losses.OpenQuoteSwallowsValue | crates/icalkit/src/internal/core/grammar/syntax.rs:138-152 | A file with a line cut short inside a quoted parameter: no value written to that line is read back |
| Gregorian.NextDateCounts | crates/icalkit/src/internal/core/gregorian.rs:75-89 | The next date counts one more, and only the last day of year 9999 has none |
| Gregorian.CountedOrder | crates/icalkit/src/internal/core/gregorian.rs:75-89 | Counting days out preserves the order of dates |
| Arith.YearOfEraFound | crates/icalkit/src/internal/core/arith.rs:292-301 | The corrected division finds the year of an era, leap days and last days included |
| Arith.DaysFromEpochCounts | crates/icalkit/src/internal/core/arith.rs:75-98 | The closed form equals the days counted out year by year and month by month from the epoch |
| Arith.DaysFromInverts | crates/icalkit/src/internal/core/arith.rs:106-122 | Every date comes back from its day number |
| Arith.FromDaysInverts | crates/icalkit/src/internal/core/arith.rs:106-122 | A day number has a date exactly from -719528 to 2932896, and comes back from it |
| Arith.DaysOrder | crates/icalkit/src/internal/core/arith.rs:75-98 | Day numbers are in the order of the dates, both ways |
| Arith.WeekdayAdvances | crates/icalkit/src/internal/core/arith.rs:129-136 | The weekday advances by one with every date, from a Thursday at the epoch |
| Arith.AddDaysMoves | crates/icalkit/src/internal/core/arith.rs:182-185 | Adding days moves the day number by exactly that many or leaves the calendar |
| Arith.AddMonthsOutcome | crates/icalkit/src/internal/core/arith.rs:147-208 | Each outcome's date is in the target month, on the requested day or the month's last, and overflow means the target left years 0 to 9999 |
| Arith.AddMonthsKind | crates/icalkit/src/internal/core/arith.rs:147-208 | Inside the calendar the outcome is Exact or Clamped exactly as the target month has the day |
| Arith.AddMonthsComposes | crates/icalkit/src/internal/core/arith.rs:147-208 | After an exact step, adding b is adding a+b in one step, whatever the outcome |
| Arith.FromInstantInverts | crates/icalkit/src/internal/core/arith.rs:219-245 | Every stamp names an instant, and is read back from it with second 60 as 59 |
| Arith.AtOffsetIs | crates/icalkit/src/internal/core/arith.rs:219-232 | An instant is the seconds counted out from 1 January 1970, less the offset, second 60 counting as 59 |
| Arith.AtOffsetInverts | crates/icalkit/src/internal/core/arith.rs:219-245 | An instant has a stamp exactly when its local day is in the calendar, and the stamp names it |
| Arith.AddDurationMoves | crates/icalkit/src/internal/core/arith.rs:256-269 | Adding a duration moves the instant by exactly its span, and fails exactly when the result leaves the calendar or clock plus seconds leaves 64 bits |
| Digits.ReadDecimal | crates/icalkit/src/internal/core/codec.rs:88-103 | Checked accumulation answers exactly for a non-empty run of digits whose number fits 64 bits |
| Digits.PlainReads | crates/icalkit/src/internal/core/codec.rs:179-182 | A number written plainly reads as itself, without a leading zero |
| Digits.ReadsPadded | crates/icalkit/src/internal/core/codec.rs:241-254 | Every run of digits is its number padded to its width |
| Digits.TermReads | crates/icalkit/src/internal/core/codec.rs:133-152 | A term is taken back by its own designator and by no other |
| Digits.IntegerRoundTrip | crates/icalkit/src/internal/core/codec.rs:846-867 | Every 32-bit integer survives writing and reading, the most negative included |
| Digits.DecodeIntegerIff | crates/icalkit/src/internal/core/codec.rs:846-857 | An integer is read exactly from a signed decimal whose value fits 32 bits |
| DateTimes.DateRoundTrip | crates/icalkit/src/internal/core/codec.rs:189-246 | Every date reads back from its text |
| DateTimes.DateTextRoundTrip | crates/icalkit/src/internal/core/codec.rs:189-246 | Every text read as a date is that date's text |
| DateTimes.TimeRoundTrip | crates/icalkit/src/internal/core/codec.rs:204-254 | Every time reads back from its text |
| DateTimes.TimeTextRoundTrip | crates/icalkit/src/internal/core/codec.rs:204-254 | Every text read as a time is that time's text |
| DateTimes.ValueRoundTrip | crates/icalkit/src/internal/core/codec.rs:229-337 | Every date, floating and UTC value reads back from its text; a zoned one as the floating octets it is written as |
| DateTimes.ValueTextRoundTrip | crates/icalkit/src/internal/core/codec.rs:229-337 | Every text that is read is its value's text |
| DateTimes.OffsetRoundTrip | crates/icalkit/src/internal/core/codec.rs:691-742 | Every UTC offset survives writing and reading |
| DateTimes.OffsetHasAnotherText | crates/icalkit/src/internal/core/codec.rs:691-742 | An offset of whole minutes has a second text, so the text is not recovered |
| DateTimes.DecodeDateIs | crates/icalkit/src/internal/core/codec.rs:189-201 | A date is read exactly from eight digits that name a day of the calendar, as the numbers they state |
| DateTimes.DecodeTimeIs | crates/icalkit/src/internal/core/codec.rs:204-214 | A time is read exactly from six digits with the hour up to 23, the minute up to 59 and the second up to 60 |
| DateTimes.DecodeValueIs | crates/icalkit/src/internal/core/codec.rs:229-246 | A value is read from a date, from a date, a T and a time, or from those and a Z, and from nothing else |
| DateTimes.DecodeUtcOffsetIs | crates/icalkit/src/internal/core/codec.rs:691-720 | An offset is read exactly from a sign and four or six digits in range that come to less than a day, never from minus zero |
| Durations.ReadDurationTime | crates/icalkit/src/internal/core/codec.rs:371-386 | The clock half is read term by term in order with checked sums |
| Durations.DecodeDurationIff | crates/icalkit/src/internal/core/codec.rs:371-427 | A text is read as a duration exactly when it is a sign or none, a P, and weeks alone or days and clock terms in order with at least one there, whose days and whose summed seconds fit 64 bits |
| Durations.SingleSignedKeepsSpan | crates/icalkit/src/internal/core/codec.rs:433-444 | Reconciling the signs keeps the total span and leaves no two parts on opposite sides of zero |
| Durations.FixedPointsAre | crates/icalkit/src/internal/core/codec.rs:433-444 | Exactly which spans are their own single-signed form |
| Durations.EncodableIff | crates/icalkit/src/internal/core/codec.rs:462-485 | Exactly which spans can be written |
| Durations.DurationRoundTrip | crates/icalkit/src/internal/core/codec.rs:414-485 | Whenever a span is written its text reads as its single-signed form: the span is kept, and the value exactly when it is that form |
| Durations.NegativeDayInSeconds | crates/icalkit/src/internal/core/codec.rs:433-485 | A negative day stated in seconds comes back as a day |
| Periods.ZoneAfterEdits | crates/icalkit/src/internal/core/codec.rs:283-287 | The zone read back after TZID is assigned is its caret encoding, undecoded |
| Periods.DateTimeSetReadsAs | crates/icalkit/src/internal/core/codec.rs:290-359 | A date-time set with its parameters is read as itself with its zone caret-encoded |
| Periods.DateTimeSetReadsBackIff | crates/icalkit/src/internal/core/codec.rs:290-359 | It reads back as itself exactly when caret encoding leaves its zone alone |
| Periods.CaretZoneComesBackDoubled | crates/icalkit/src/internal/core/codec.rs:283-287 | A zone named by one caret, set on any property, comes back as two |
| Periods.FirstZoneDecides | crates/icalkit/src/internal/core/codec.rs:283-309 | A floating date-time is read in the zone its first TZID names, in any case of the name, between DQUOTEs or not, unless that names nothing; a date or a UTC value is in none |
| Periods.BoundIsNoDuration | crates/icalkit/src/internal/core/codec.rs:504-583 | No text is both a period bound and a duration |
| Periods.PeriodTextReads | crates/icalkit/src/internal/core/codec.rs:568-657 | A period's text reads as the period without its zones, in its own form |
| Periods.PeriodSetReadsBackIff | crates/icalkit/src/internal/core/codec.rs:568-679 | A period set with its parameters reads back as itself exactly when it mixes no zoned bound with a floating one, caret encoding leaves its zone alone, and its duration is single-signed |
| Periods.MixedComesBackZoned | crates/icalkit/src/internal/core/codec.rs:591-622 | A mixed period comes back with both bounds in the zone |
| Periods.DateTimeSetParameters | crates/icalkit/src/internal/core/codec.rs:339-359 | A date leaves VALUE=DATE and no TZID on its property, a zoned date-time its TZID and no VALUE, a floating or UTC one neither |
| Periods.PeriodSetParameters | crates/icalkit/src/internal/core/codec.rs:659-679 | A period leaves VALUE=PERIOD, and the zone its start names, or else its end's, or no TZID |
| Periods.EncodePeriodIff | crates/icalkit/src/internal/core/codec.rs:515-557 | A period is written exactly when its bounds are date-times, each zone has a name and no two zones are named, and its duration can be written and is positive as a whole |
| Periods.DecodePeriodIs | crates/icalkit/src/internal/core/codec.rs:568-588 | A text is read as what stands on either side of its first slash: two bounds, or one and a positive duration |
| Binary.IsBase64TextIff | crates/icalkit/src/internal/core/codec.rs:1028-1064 | The validity test accepts exactly the quanta of section 3.3.1's grammar |
| Binary.ReadQuantum | crates/icalkit/src/internal/core/codec.rs:1074-1091 | A quantum is packed octet by octet and yields the octets its padding leaves |
| Binary.ReadBinary | crates/icalkit/src/internal/core/codec.rs:1126-1141 | Reading succeeds exactly on the texts of the grammar |
| Binary.BinaryRoundTrip | crates/icalkit/src/internal/core/codec.rs:1126-1141 | Every octet string is recovered from its RFC 4648 encoding |
| Binary.AlphabetIs | crates/icalkit/src/internal/core/codec.rs:1011-1026 | The characters read are exactly the 64 of RFC 4648's alphabet, each as its place in it |
| Binary.DecodedLength | crates/icalkit/src/internal/core/codec.rs:1093-1107 | A text yields three octets a quantum less its padding, and never more than the room reserved |
| Text.ResolveEscapes | crates/icalkit/src/internal/core/codec.rs:930-952 | The pass with a held-back backslash resolves the escapes from left to right |
| Text.UnescapeIs | crates/icalkit/src/internal/core/grammar/escape.rs:42-75 | In octets: a backslash before a backslash, a semicolon or a comma stands for that octet, before n or N for LF, and before anything else for itself and what follows |
| Text.EncodeText | crates/icalkit/src/calendar.rs:307-323 | A text is written exactly when it holds no refused control character, without CR or LF, and reads back as itself |
| Text.EscapeIs | crates/icalkit/src/calendar.rs:307-323 | In octets: a backslash, a semicolon and a comma are written behind a backslash, LF as a backslash and n, every other octet as itself; every control octet but HTAB and LF is refused |
| Text.EscapeRoundTrip | crates/icalkit/src/calendar.rs:307-323 | Unescaping undoes the printer on all octets |
| Text.EscapeIsInjective | crates/icalkit/src/calendar.rs:307-323 | Different texts are written differently |
| Text.OnlyResolvedShrink | crates/icalkit/src/internal/core/codec.rs:913-952 | Only a resolved escape costs an octet: undefined and trailing ones lose nothing, on all inputs |
| Text.UnresolvedStays | crates/icalkit/src/internal/core/codec.rs:913-952 | A text without a resolved escape is its own value |
| LineEndings.NormalizeLineEndings | crates/icalkit/src/interop.rs:166-191 | The loop computes the normalized text and the report |
| LineEndings.NormalizedOnlyPairs | crates/icalkit/src/interop.rs:166-191 | In the output CR and LF occur only as CR LF pairs |
| LineEndings.NormalizedKeepsLines | crates/icalkit/src/interop.rs:166-191 | The lines are the same lines under CR LF, CR and LF splitting |
| LineEndings.NormalizedIsStable | crates/icalkit/src/interop.rs:166-191 | Normalizing again changes nothing and reports nothing |
| LineEndings.LengthGrowsByChanges | crates/icalkit/src/interop.rs:166-191 | The output is longer by exactly the number of changes |
| LineEndings.ChangesAreLone | crates/icalkit/src/interop.rs:166-191 | The report is exactly the offsets of the lone CRs and LFs, strictly increasing |
| CalDav.ServerOperation.Supply | crates/icalkit/src/caldav.rs:2657-2678 | An answer moves the operation as the responder says; need and responder come and go together and never stand beside a response |
| CalDav.ServerOperation.Finish | crates/icalkit/src/caldav.rs:2681-2685 | Only an answered operation finishes |
| CalDav.Handle | crates/icalkit/src/caldav.rs:2042-2311 | Every workflow begins by asking for authorization |
| CalDav.SettledStays | crates/icalkit/src/caldav.rs:2657-2678 | A finished or dead operation stays what it is over every run |
| CalDav.AuthorizationComesFirst | crates/icalkit/src/caldav.rs:2042-2311 | In every run of every workflow a storage or delivery need appears only after Authorized(true); Authorized(false) ends in 403 for good; a first answer of another kind is the end |
| CalDav.NeedsAre | crates/icalkit/src/caldav.rs:2042-2439 | Each workflow first asks for leave under caldav.authorize and, once granted, under its own code, with the request's verb and URI and exactly what its kind carries: a body, recipients, a revision, or a token and a limit |
| CalDav.WrongKindIsDead | crates/icalkit/src/caldav.rs:2042-2311 | Storage answered with the wrong kind leaves an operation that is dead for good |
| CalDav.ScheduleAnswersEveryRecipient | crates/icalkit/src/caldav.rs:2205-2258 | A 200 scheduling answer implies the deliveries are the requested recipients, each exactly once |
| CalDav.WriteStatus | crates/icalkit/src/caldav.rs:2260-2311 | A conditional write answers 412, 201 or 204 as the stored revision and the expectation say, with the stored tag |
| CalDav.WriteAnswers | crates/icalkit/src/caldav.rs:2260-2311 | And a write that storage answers always ends so: 412 if it was not made, 201 or 204 if it was, at the URI and with a tag, and no answer otherwise |
| CalDav.MkCalendarStatus | crates/icalkit/src/caldav.rs:2161-2203 | A calendar that was created is answered 201, one that was not 409, and nothing else finishes the request but a refusal of leave |
| CalDav.SyncAnswers | crates/icalkit/src/caldav.rs:1851-1890 | Changes over the limit the client set, or without a token for the next time, are no answer; any others are the rendered body under 207 |
| CalDav.MultistatusAnswers | crates/icalkit/src/caldav.rs:2042-2110 | Discovery and a query are answered the rendered body under 207, or nothing when it cannot be rendered |
| CalDav.ScheduleAnswers | crates/icalkit/src/caldav.rs:2205-2258 | Deliveries for exactly the distinct recipients asked are answered 200 with the rendered body; any others are no answer |
| CalDav.OversizedAnswerIsFatal | crates/icalkit/src/caldav.rs:2657-2678 | A raw answer past the bound ends the operation for good; one at the bound is read |
| CalDav.Operation.Accept | crates/icalkit/src/caldav.rs:1611-1634 | A response moves a pending operation to its next request or its result, and is refused otherwise; exactly one of the two is held |
| CalDav.FirstSettlementDecides | crates/icalkit/src/caldav.rs:1611-1634 | Over every run of responses the first that settles decides: its decoder's value or error, or the refusal of a body past the bound, and nothing after it changes that |
| CalDav.Operation.Finish | crates/icalkit/src/caldav.rs:1637-1641 | Only a resolved operation finishes, with its result |
| Scheduling.Pigeonhole | crates/icalkit/src/caldav.rs:2225-2236 | As many entries as distinct names, each name among them, are the names |
| Scheduling.AnswersAllOnce | crates/icalkit/src/caldav.rs:2225-2236 | Equal counts and one delivery for each distinct recipient make a permutation |
| Scheduling.AnswersAllIff | crates/icalkit/src/caldav.rs:2225-2236 | For distinct recipients the test of an answer accepts exactly the deliveries that are theirs, each once |
| Scheduling.ParseRecipients | crates/icalkit/src/caldav.rs:872-891 | Recipients are accepted exactly when there is one, every one is an address and none is named twice, across all headers, and are those named in order |
| Scheduling.SplitsJoined | crates/icalkit/src/caldav.rs:878 | Comma-free pieces joined by commas come apart into as many pieces, in order, each trimmed |
| Scheduling.TrimsAround | crates/icalkit/src/caldav.rs:878 | A text between white space, with none at its ends, is trimmed to itself |
| Scheduling.RecipientHeaderNames | crates/icalkit/src/caldav.rs:872-891 | A header in front adds exactly its texts if it is called Recipient, in any case of its letters, and nothing otherwise; one whose value is no text names nobody for the whole request |
| Scheduling.OneHeaderAccepted | crates/icalkit/src/caldav.rs:872-891 | Addresses joined by commas in one header, with white space around them, are the request's recipients, and acceptable exactly when none is there twice |
| Scheduling.NewScheduleResponse | crates/icalkit/src/caldav.rs:505-516 | A scheduling answer is accepted exactly when it is non-empty and names no recipient twice |
| AllocationGate.StepAccounts | crates/icalkit-conformance/src/bin/allocation_gate.rs:101-133 | Every atomic step keeps the peak no higher than the highest value held, what it misses being owed by a thread about to note it |
| AllocationGate.PeakIsHighest | crates/icalkit-conformance/src/bin/allocation_gate.rs:101-133 | In every interleaving, when no thread is between its add and its max, PEAK is the highest value CURRENT has held, and TOTAL is always the sum of what the steps charged |
| AllocationGate.PeakCanLag | crates/icalkit-conformance/src/bin/allocation_gate.rs:101-110 | Between a thread's add and its max the peak can be behind |
| AllocationGate.ReleasesSubtract | crates/icalkit-conformance/src/bin/allocation_gate.rs:119-128 | At every moment of a run of releases the counter is what it was less what has been released, or zero |
| AllocationGate.ConcurrentReleasesEnd | crates/icalkit-conformance/src/bin/allocation_gate.rs:119-128 | Concurrent releases, whenever each is begun, end at the initial value less their sum, or zero, whatever the order and however often the exchange fails |

## Left out

- Parse.ParseDocument: for an input that crosses several bounds, names one of them, not the one met first; a ledger shared between parses, or budgeted apart from its policy, is not part of this model.
- Diagnostics, their codes and locations: no stored or written octet depends on them.
- The reader's token interface: `ContentLineReader.NextLine` delivers a whole line, its value chunk by chunk inside the call; other token sources than the reader, and the line a source leaves unfinished, are not part of this model.
- The write errors of a sink: `Emit.Sink` is the growable buffer, which has none.
- The saturation of the line writer's two counters at the machine's address width: they count octets held in memory and are unbounded here.
- Runs.RemoveNamedReadsBack: the condition on terminators is sufficient; the exact condition is the one in `Runs.RemoveNamedReadsBackIff`.
- Writes.RewriteReadsBackIff: reads by the grammar, without the caller's bounds, as do the next three; `Bounds.StepReopensIff` adds the bounds.
- Runs.StepReadsBackIff: `Bounds.StepReopensIff` adds the bounds.
- Runs.AcceptedReplacementReadsBack: `Bounds.AuthoredStepStaysAdmitted` adds the bounds.
- Runs.EveryRunReadsBackIff: `Bounds.EveryRunReopensIff` adds the bounds.
- Mutate.PropertyMut.Set: takes the value's text and its coupled parameters as arguments; the encoders that produce them are modelled in `Periods`, `Durations` and `Digits` for the values those cover.
- Mutate.ReadReplacementLine: for a line with its value and another bound crossed, either error is allowed: which bound is met first is left open.
- Mutate.ReadNamedLine: leaves the same open.
- Lexer.ContentLineReader.NextLine: names a bound the line crosses, not the first one met when it crosses two.
- Scheduling.ParseRecipients: white space beyond ASCII is not trimmed, and a header value that is not UTF-8 is given as no value; the content type, originator and message of a scheduling request are not part of this model.
- CalDav.Handle: the workflows start from decoded requests; XML, entity tags, the bodies of multistatus answers and the message, originator and calendar a need carries are left out, and the renderers of answers are parameters that may refuse.
- AllocationGate.PeakIsHighest: reallocation, the ENABLED switch and the wrap of a counter at 64 bits are not part of this model.
- Text: the UTF-8 check in front of unescaping; text is held as octets, of which both sides look only at ASCII ones.
- Floats, `GEO`, booleans, URIs and the simple accessors: the first are opaque to this model, the rest would add easy members.
- Recurrence, iTIP review, time zones, Jiff conversion, the conformance runner and the repository's own policy checks: glue around code that is not shown, or string checks.
