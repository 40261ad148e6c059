# cyrup: protocol, catalog and path logic

A Dafny 4.11 model of six stateful or structural parts of cyrup, with proofs about whole runs of
them. Check everything with `dafny verify dfyconfig.toml`.

- **Terminal delta and tool-call ledger** (`crates/cyrup-acp/src/ledger.rs`): `Utf8`,
  `OverlapSearch`, `Terminal`, `ToolCallLedger`, `LedgerProtocol`. The overlap search is the
  source's failure table and scan on arrays, proved against "the longest overlap", with a count of
  the loop steps. The appender and the ledger are classes; each method is tied to one step of a
  state machine, and `LedgerProtocol` runs that machine beside a client that replays the frames.
- **Data-literal parser and printer** (`xtask/src/tsdata.rs`): `TsData`, `TsLayout`, `TsParser`,
  `TsCursor`, `TsRoundTrip`, `TsGrammar`, `TsLexemes`, `TsAcceptance`, `TsErrors`, `Text`. `TsParser`
  gives the scanner as functions on the text that is left; `TsCursor` is the parser with a cursor,
  proved to agree with it and to move forward; `TsRoundTrip` relates printing and parsing.
  `TsGrammar` is the language on its own, as concrete syntax trees, and `TsAcceptance` proves that
  the scanner accepts the texts of these trees and no others.
- **Catalog tools** (`xtask/src/main.rs`): `Sorting`, `Canonical`, `CatalogDiff`, `CatalogPins`,
  `Revisions`.
- **Rename echo and command list** (`crates/cyrup-acp/src/commands.rs`): `RenameEcho`,
  `CommandCatalog`. The echo is a counter shared by tasks, so its runs are all interleavings of
  atomic steps.
- **Lexical paths** (`crates/cyrup-acp/src/ids.rs`): `Paths`. A path is its list of components;
  the reference is a walk through a tree without links.
- **Dialog options** (`crates/cyrup-acp/src/permission.rs`): `Dialog`.

A loop of the source is a method with the same loop; its `ensures` names a specification function,
and the lemmas beside it say what that function promises. Bytes are numbers below 256,
valid UTF-8 is that of section 4 of RFC 3629, and string escapes are those of section 7 of RFC 8259.

## Where the code and its own words differ

- *Every line once, none dropped, none repeated* (`ledger.rs` 1339-1344) does not hold on repetitive
  output: the longest overlap can be longer than the true one, and the difference is dropped.
  `Terminal.RepetitiveOutputDropsBytes` is an input, `Terminal.ExactIff` the exact condition for a
  run of sliding windows, and `Terminal.UniqueBlocksMakeRunsExact` a condition on the output alone.
  None *repeated* holds for all windows that never move back (`Terminal.PaneNeverRepeats`).
- *The tail of a command is never lost through every field at once* (`ledger.rs` 463-466, 769-783)
  holds when no earlier snapshot desynced. A finish that repeats a desynced snapshot is `Nothing`,
  so its output is in neither place: `LedgerProtocol.RepeatedDesyncIsLost` is an input,
  `LedgerProtocol.FinishDeliversIff` the exact condition.
- *For each tool-call id the first update is `tool_call`, all later ones `tool_call_update`*, and
  *status never regresses* (`translate.rs` 320-323): a clear, which ends every turn (`translate.rs`
  367-379, `turn.rs` 1520-1522), drops open calls without a frame. An id announced again after it
  was never open when announced, and yet its running row is announced twice and may go back to
  pending: `LedgerProtocol.ClearedCallIsAnnouncedTwice`. The exact conditions, for every run, are
  `LedgerProtocol.SecondAnnounceIffShown` for the second announce and
  `LedgerProtocol.StatusNeverRegressesIff` for the status. That *terminal content accompanies the announce only* (324-325)
  holds exactly when no caller patches it in: `LedgerProtocol.RunsAreLegalIff`.
- *A candidate must normalise to a `.jsonl` under the root* (`ids.rs` 147) is so for an absolute root.
  A relative root, such as the fallback without a home directory (`layout.rs` 96-101), holds no
  candidate, unless its components cancel out, and then it holds all; the empty root of a connection
  without a host (`sessions.rs` 218-220) is of that kind: `Paths.EmptyRootHoldsAnyFile`.
  `Paths.AcceptedSessionFilesAreBelowRoot` is the exact condition for every root.
- *Exactly one update reaches the client* for each rename (`commands.rs` 870-872) fails when the event
  of another rename is delivered while a claim stands, since the claim is not keyed. Then the other
  rename is never told, and the `/name` is told twice (`RenameEcho.OvertakenNameIsToldTwice`) or, when
  it fails, nothing makes up for it (`RenameEcho.FailureCanCostAnUpdate`).
  `RenameEcho.OneUpdateForEachIff` is the exact condition, for every interleaving. In totals, as 875-880
  puts it, the updates are as many as the renames, less the failures that found their claim taken:
  `RenameEcho.AsManyUpdatesAsRenames`.
- *On both sides, with at least one field difference* (`main.rs` 1676-1677) needs distinct keys:
  `CatalogDiff.RepeatedKeyHasNoLine` is an input, `CatalogDiff.NoLineIff` says when there is no
  line.
- A `\u` escape accepts `+` before three digits, as Rust's `from_str_radix` does; the model keeps
  that.

## Model

| member | source | states |
|---|---|---|
| OverlapSearch.LongestOverlapIsLongest | crates/cyrup-acp/src/ledger.rs:363 | the reference: among all k for which the last k bytes sent are the first k of the next snapshot there is one largest, and the definition finds it |
| OverlapSearch.NextLongest | crates/cyrup-acp/src/ledger.rs:399-405 | the failure table is enough: the longest proper overlap below a match is the longest border of the matched part |
| OverlapSearch.ExtendLongest | crates/cyrup-acp/src/ledger.rs:403-407 | one more byte of text: extending the longest overlap whose next byte fits gives the longest overlap of the longer text |
| OverlapSearch.ExtendMatch | crates/cyrup-acp/src/ledger.rs:402-408 | the inner loop leaves the longest overlap of the text read so far, and each fall is paid for by an earlier advance |
| OverlapSearch.FailureTable | crates/cyrup-acp/src/ledger.rs:383-396 | each slot is the longest border of its prefix; at most two steps per byte |
| OverlapSearch.Scan | crates/cyrup-acp/src/ledger.rs:398-410 | the match length at the end is the longest overlap of the text; at most two steps per byte |
| OverlapSearch.ClippingLosesNothing | crates/cyrup-acp/src/ledger.rs:366-369 | for every k: an overlap with all that was sent is an overlap with its last bytes, as many as the snapshot has, and back |
| OverlapSearch.PrefixOverlap | crates/cyrup-acp/src/ledger.rs:374-411 | the result is the longest overlap, found in at most four steps per byte of the snapshot however much was sent |
| OverlapSearch.OverlapIsCharBoundary | crates/cyrup-acp/src/ledger.rs:370-373 | on valid UTF-8 every overlap begins and ends on a character boundary of both texts, and both halves of the snapshot are valid |
| Utf8.ValidIffEncoded | crates/cyrup-acp/src/ledger.rs:370-373 | a byte string is valid text iff it is the encoding of some characters, by the bit layout of RFC 3629 |
| Utf8.BoundaryIff | crates/cyrup-acp/src/ledger.rs:370-373 | in valid text a position is a character boundary iff what is before it, and what is after it, is valid text |
| Terminal.TerminalAppender.Push | crates/cyrup-acp/src/ledger.rs:487-508 | the push decided from the last snapshot by the reference overlap; the snapshot always replaces it |
| Terminal.PushKinds | crates/cyrup-acp/src/ledger.rs:487-508 | on valid UTF-8, for all snapshots: an extension appends, an overlap of at least 32 bytes that leaves something resyncs, one that leaves nothing is nothing, the rest desyncs; data is what lies past the overlap |
| Terminal.DesyncedIffOverlapTooShort | crates/cyrup-acp/src/ledger.rs:496-507 | on valid UTF-8 a push desyncs iff the snapshot is no extension and the longest overlap is below 32 bytes, so taking the rest of the snapshot never fails; what is emitted is valid UTF-8 |
| Terminal.PushEmitsPastLongestOverlap | crates/cyrup-acp/src/ledger.rs:449-453 | one rule for extension, slide and repeat: whatever does not desync emits the snapshot past its longest overlap |
| Terminal.PaneKeepsSnapshot | crates/cyrup-acp/src/ledger.rs:419-424 | a pane that ends with the last snapshot ends with the next one after a push that does not desync |
| Terminal.PaneEndsWithLatest | crates/cyrup-acp/src/ledger.rs:419-424 | over any run of any snapshots, while none desynced, all that was emitted ends with the latest snapshot |
| Terminal.BaseKeepsUp | crates/cyrup-acp/src/ledger.rs:469-480 | a desync re-bases and does not latch: over any run of any snapshots, the last desynced snapshot and what was emitted after it end with the latest snapshot |
| Terminal.PaneRecoversIff | crates/cyrup-acp/src/ledger.rs:469-480 | over any run of any snapshots: the pane ends with the latest iff at least as much was emitted since the last desync as the latest holds, or the pane ended at that desync with what the latest still holds of the lost snapshot |
| Terminal.RepeatOfDesync | crates/cyrup-acp/src/ledger.rs:469-480 | a snapshot that desyncs and comes again adds nothing, and is still all missing |
| Terminal.AdvanceEmitsNewBytesOnly | crates/cyrup-acp/src/ledger.rs:449-453 | a window that moves neither end back emits a suffix of the bytes produced since the last one, whatever the output and however much was skipped |
| Terminal.SlideEmitsNewBytesOnly | crates/cyrup-acp/src/ledger.rs:449-453 | one that also leaves at least 32 bytes, or starts where the last did, does so without a desync |
| Terminal.SlideExactIff | crates/cyrup-acp/src/ledger.rs:449-453 | a slide emits all the new bytes iff the longest overlap is the one the slide left |
| Terminal.SlidingNeverDesyncs | crates/cyrup-acp/src/ledger.rs:432-453 | no push of a whole run of sliding windows desyncs |
| Terminal.PaneNeverRepeats | crates/cyrup-acp/src/ledger.rs:449-460 | over every run of windows that never move back, skips and desyncs included, the pane is read off the output at strictly increasing positions: no byte is repeated and none is out of order |
| Terminal.ExactIff | crates/cyrup-acp/src/ledger.rs:1339-1344 | after every push of a run of sliding windows the pane is the output produced so far, iff the first window starts at 0 and every longest overlap is the true one |
| Terminal.UniqueBlocksMakeRunsExact | crates/cyrup-acp/src/ledger.rs:1339-1344 | if no 32-byte block occurs twice in the output and the first window starts at 0, the pane is the output produced so far after every push |
| Terminal.LongOverlapRepeatsBlock | crates/cyrup-acp/src/ledger.rs:351-361 | an overlap longer than the true one and at least 32 long shows a 32-byte block that occurs twice |
| Terminal.RepetitiveOutputDropsBytes | crates/cyrup-acp/src/ledger.rs:449-453 | the hypothesis is needed: fifty equal bytes seen through two windows leave a pane of forty-six |
| ToolCallLedger.ToolCallLedger.constructor | crates/cyrup-acp/src/ledger.rs:576-581 | a new ledger has no open call |
| ToolCallLedger.ToolCallLedger.Announce | crates/cyrup-acp/src/ledger.rs:617-657 | the entry is inserted or replaced with a fresh appender for a terminal; the frame alone opens a terminal, under the call's own id |
| ToolCallLedger.ToolCallLedger.Update | crates/cyrup-acp/src/ledger.rs:673-685 | unknown ids send nothing; otherwise the stored status becomes the larger of the two and is what the frame says |
| ToolCallLedger.ToolCallLedger.Finish | crates/cyrup-acp/src/ledger.rs:696-712 | unknown ids send nothing; otherwise the entry goes away and the frame is completed or failed |
| ToolCallLedger.ToolCallLedger.TerminalProgress | crates/cyrup-acp/src/ledger.rs:737-758 | only an open terminal: the snapshot is pushed, the status advances, and no frame is sent when neither says anything; no other call is touched |
| ToolCallLedger.ToolCallLedger.TerminalFinish | crates/cyrup-acp/src/ledger.rs:784-817 | only an open terminal: the last push, the exit, the close, and the text block of a desynced last push |
| ToolCallLedger.ToolCallLedger.AttachSnapshot | crates/cyrup-acp/src/ledger.rs:824-832 | only an open mutation takes the snapshot, and the answer says whether it did |
| ToolCallLedger.ToolCallLedger.Close | crates/cyrup-acp/src/ledger.rs:861-863 | the entry goes away without a frame, and the answer says whether there was one |
| ToolCallLedger.ToolCallLedger.Clear | crates/cyrup-acp/src/ledger.rs:879-881 | no call stays open |
| LedgerProtocol.RunsAreInOrder | crates/cyrup-acp/src/ledger.rs:553-560 | over every run of calls: each frame is in order for the client that replayed those before it (announce first, unfinished and with its own terminal or none; status never back, nothing after a finish, terminal data only for a row announced as that terminal), and at the end every open call and its row agree in status, kind, pane and last snapshot |
| LedgerProtocol.RunsAreLegalIff | crates/cyrup-acp/src/translate.rs:320-325 | over every run: besides, only announces show a terminal, iff no patch that shows one is handed to an open call |
| LedgerProtocol.StepKeepsCoupled | crates/cyrup-acp/src/ledger.rs:553-560 | one call keeps every open call and its row in step, and what it sends is legal |
| LedgerProtocol.StepKeepsPanes | crates/cyrup-acp/src/ledger.rs:737-758 | one call keeps the pane of every open terminal equal to what its own snapshots append |
| LedgerProtocol.FramesNeverRegress | crates/cyrup-acp/src/ledger.rs:233-237 | read off the frames alone: between two frames of one id with no announce between, status does not go back and the first is not completed or failed |
| LedgerProtocol.AnnounceComesFirst | crates/cyrup-acp/src/ledger.rs:553-560 | every update has an earlier announce of its id |
| LedgerProtocol.AnnounceShows | crates/cyrup-acp/src/ledger.rs:617-657 | after any run an announce leaves a row with exactly the request: title, kind, status, locations, raw input, and for a shell alone a terminal under its own id in the session cwd |
| LedgerProtocol.UpdateShows | crates/cyrup-acp/src/ledger.rs:673-685 | after any run an update of an open call leaves the row with the fields its patch names and the later of the two statuses, and nothing else changed |
| LedgerProtocol.FinishShows | crates/cyrup-acp/src/ledger.rs:696-712 | the same for a finish, with completed or failed |
| LedgerProtocol.ProgressShows | crates/cyrup-acp/src/ledger.rs:737-758 | after any run a progress of an open terminal leaves the row in progress with the emitted bytes at the end of its pane, and nothing else changed |
| LedgerProtocol.OtherRowsStay | crates/cyrup-acp/src/ledger.rs:673-817 | no call changes the row of another id, and none but an announce that of an id that is not open |
| LedgerProtocol.OnlyTerminalsTakeOutput | crates/cyrup-acp/src/ledger.rs:737-741 | terminal output for a call that is not open, or no terminal, changes neither the ledger nor the frames |
| LedgerProtocol.OpenCallsKeepClass | crates/cyrup-acp/src/ledger.rs:628-641 | over every run an open call has the class of its last announce |
| LedgerProtocol.MutationsHoldLastSnapshot | crates/cyrup-acp/src/ledger.rs:819-832 | over every run exactly the open mutations hold a snapshot, the last one attached or announced |
| LedgerProtocol.RunningRowsAreShown | crates/cyrup-acp/src/ledger.rs:692-695 | over every run, closes and clears included: the rows the client shows as running are exactly the calls announced and not finished since, at the statuses they reached, and the open calls are among them |
| LedgerProtocol.OnlyOpenShownIff | crates/cyrup-acp/src/ledger.rs:859-881 | the open calls are exactly those at every moment iff no close or clear drops an open call |
| LedgerProtocol.RunningRowsAreOpenCalls | crates/cyrup-acp/src/ledger.rs:692-695 | so in a run that drops no open call the running rows are the open calls |
| LedgerProtocol.SecondAnnounceIffShown | crates/cyrup-acp/src/ledger.rs:608-616 | over every run: a running row is announced a second time iff some call announces an id that was announced and not finished since |
| LedgerProtocol.SecondAnnounceIffOpenId | crates/cyrup-acp/src/ledger.rs:608-616 | in a run that drops no open call: iff some call announces an open id, so asking first whether the id is open is enough there |
| LedgerProtocol.StatusNeverRegressesIff | crates/cyrup-acp/src/translate.rs:320-323 | over every run: no frame, announces included, takes the status of a running row back, iff no call announces as pending an id that was announced, is not finished since and is in progress |
| LedgerProtocol.ClearedCallIsAnnouncedTwice | crates/cyrup-acp/src/translate.rs:367-379 | after any run: announce, clear, announce again never announces an open id, and yet announces a running row twice, and takes it back when it goes from in progress to pending |
| LedgerProtocol.SuppressedIffNothingToSay | crates/cyrup-acp/src/ledger.rs:722-736 | the progress frame is suppressed iff replaying it would leave the client as it is |
| LedgerProtocol.PaneIsOwnSnapshots | crates/cyrup-acp/src/ledger.rs:737-758 | among any interleaved calls, the pane of an open terminal is what the snapshots offered to it since its announce append |
| LedgerProtocol.WholeCommandIsExact | crates/cyrup-acp/src/ledger.rs:1339-1344 | among any interleaved calls, if the snapshots of an open terminal are sliding windows of an output with no repeated 32-byte block, the pane is the output produced so far |
| LedgerProtocol.FinishedCommandIsExact | crates/cyrup-acp/src/ledger.rs:1339-1344 | and when its finish offers one more such window, the row it leaves has all the output up to that window in its pane |
| LedgerProtocol.FinishAddsLastPush | crates/cyrup-acp/src/ledger.rs:784-817 | what a finish does to the row: completed or failed, the exit code under the terminal's own id, the last bytes, and the text block iff the last push desyncs with output left |
| LedgerProtocol.FinishDeliversOutput | crates/cyrup-acp/src/ledger.rs:769-783 | if no earlier push of the terminal desynced, a finish leaves its output at the end of the pane or in the text beside it |
| LedgerProtocol.FinishDeliversIff | crates/cyrup-acp/src/ledger.rs:769-783 | for every run: a finish delivers its output iff its push desyncs, or its text is in the row's content already, or at least as much was emitted since the last desync as it holds, or the pane ended at that desync with what it still holds of the lost snapshot |
| LedgerProtocol.RepeatedDesyncIsLost | crates/cyrup-acp/src/ledger.rs:769-783 | two one-byte snapshots that differ, then a finish repeating the second: the output is in neither place |
| TsData.JsonWriter.WriteJson | xtask/src/tsdata.rs:108-160 | the writer appends exactly the printed form of a value at a depth, whatever was written before |
| TsData.JsonWriter.WriteString | xtask/src/tsdata.rs:162-180 | the writer appends the quoted and escaped text |
| TsData.ToJson | xtask/src/tsdata.rs:102-106 | the printed form at depth 0 |
| TsLayout.LayoutIs | xtask/src/tsdata.rs:108-160 | the printed form, line by line: each item and entry on its own line one tab deeper, `,` and a line end between, `": "` after a key, empty ones on no line, words and numerals as they are |
| TsLayout.EscapedIs | xtask/src/tsdata.rs:162-180 | a character stands for itself iff it is no quote, backslash or control; five controls have a letter, the others `\u00` and two lower-case digits that count them |
| TsLayout.QuotedIs | xtask/src/tsdata.rs:162-180 | a text is escaped character by character, between quotes |
| TsCursor.Parser.ParseValue | xtask/src/tsdata.rs:333-359 | the cursor parser agrees with the grammar on value and rest of the text, and every success moves the cursor forward within the text |
| TsCursor.Parser.ParseObject | xtask/src/tsdata.rs:361-395 | the same for objects, entry by entry in order, with commas free |
| TsCursor.Parser.ParseArray | xtask/src/tsdata.rs:397-418 | the same for arrays |
| TsCursor.Parser.ParseString | xtask/src/tsdata.rs:437-501 | the same for string literals and their escapes |
| TsCursor.Parser.ParseNumber | xtask/src/tsdata.rs:503-532 | the longest numeral is taken and kept as text |
| TsCursor.Parser.SkipTrivia | xtask/src/tsdata.rs:274-289 | white space and line comments are skipped, and nothing else |
| TsCursor.Parser.SkipAssertions | xtask/src/tsdata.rs:295-331 | trivia, `satisfies` types with balanced angles, and `as const` are skipped, and nothing else |
| TsCursor.RunParseJson | xtask/src/tsdata.rs:231-245 | the document parser run with a cursor gives what the grammar gives; an error carries the text left where it was met, or the text that trails |
| TsCursor.RunParseModuleObject | xtask/src/tsdata.rs:198-229 | the module parser run with a cursor gives what the grammar gives, errors likewise |
| TsAcceptance.ReadsExactlyTheTrees | xtask/src/tsdata.rs:333-532 | the scanner reads exactly the texts of the grammar's trees, as the values they mean, with any text after them: bare and quoted keys, comments, commas anywhere, assertions after values, all escapes, numerals |
| TsAcceptance.AcceptsExactlyTheDocuments | xtask/src/tsdata.rs:231-245 | `parse_json` gives a value iff the text is a tree of that value, blanks, and white space |
| TsAcceptance.AcceptsExactlyTheModules | xtask/src/tsdata.rs:198-229 | `parse_module_object` gives a value iff the text is anything up to its first `export const`, a binding up to its first `=`, a tree of that value, assertions, and at most one semicolon in white space |
| TsLexemes.BlanksApart | xtask/src/tsdata.rs:274-289 | white space and comments are skipped up to the first character that starts neither |
| TsLexemes.AssertionsApart | xtask/src/tsdata.rs:295-331 | what is skipped after a value are blanks, `as const`, and `satisfies` types with balanced angles |
| TsLexemes.PiecesApart | xtask/src/tsdata.rs:437-501 | a literal is read piece by piece: characters, one-letter escapes, `\u` escapes of scalar values |
| TsLexemes.NumeralApart | xtask/src/tsdata.rs:503-532 | a numeral goes as far as each character goes on from the one before it |
| TsLexemes.KeyApart | xtask/src/tsdata.rs:376-382 | a key is a literal or the longest run of letters, digits, `_` and `$` |
| TsErrors.ValueEnds | xtask/src/tsdata.rs:333-532 | every refusal fits the text: what it shows stands there, is what it says, and the text left is an end of the text where the expected thing is not |
| TsErrors.DocumentRefusals | xtask/src/tsdata.rs:231-245 | a document is refused for its value, or with the trimmed text after it, which is not blank |
| TsErrors.ModuleRefusals | xtask/src/tsdata.rs:198-206 | a module is refused for its keyword iff it has none, and for its equals sign iff none follows the first keyword |
| Text.TrimApart | xtask/src/tsdata.rs:215-216 | trimming takes off white space only, and leaves a text that neither starts nor ends with it |
| Text.TrimOf | xtask/src/tsdata.rs:215-216 | and any such text between white space is what trimming gives |
| TsRoundTrip.ValueRoundTrip | xtask/src/tsdata.rs:108-160 | a printable value printed at any depth, before any text that does not extend its last token, is read back with exactly that text left |
| TsRoundTrip.StringRoundTrip | xtask/src/tsdata.rs:162-180 | every text, control characters included, is read back from its escaped form |
| TsRoundTrip.ItemsRoundTrip | xtask/src/tsdata.rs:397-418 | the lines of an array are read back in order onto any items read before |
| TsRoundTrip.EntriesRoundTrip | xtask/src/tsdata.rs:361-395 | the lines of an object are read back in order, repeated keys included |
| TsRoundTrip.JsonRoundTrip | xtask/src/tsdata.rs:231-245 | parse after print is the identity on every value whose numerals are numerals |
| TsRoundTrip.PrintingIsInjective | xtask/src/tsdata.rs:102-106 | two printable values with one text are equal |
| TsRoundTrip.ReadValueIsPrintable | xtask/src/tsdata.rs:333-359 | whatever the parser accepts is a printable value, numerals included |
| TsRoundTrip.AcceptedTextIsFixpoint | xtask/src/tsdata.rs:231-245 | printing what was read from any accepted text and reading it again gives the same value |
| TsRoundTrip.ModuleRoundTrip | xtask/src/tsdata.rs:198-229 | a module whose first `export const` binds a printed value `as const` gives that value, whatever precedes it and whatever white space ends it |
| Sorting.StableSortSorts | xtask/src/main.rs:1744-1753 | the result is sorted under any total preorder |
| Sorting.StableSortIsStable | xtask/src/main.rs:1744-1753 | elements that tie keep their order |
| Sorting.StableSortIsUnique | xtask/src/main.rs:1744-1753 | any sorted sequence with the same ties in the same order is that result, so the sorting algorithm does not matter |
| Canonical.KeyOrderIsTotal | xtask/src/main.rs:1745-1753 | both entry orders, ladder and text, are total preorders |
| Sorting.TextLeqIff | xtask/src/main.rs:1750-1752 | texts are ordered by the first character that differs, a start before the whole |
| Canonical.KeyOrderIs | xtask/src/main.rs:1710-1753 | the ladder puts its seven levels first, in their order, and all other keys after them, as texts |
| Canonical.CanonicalIsOrdered | xtask/src/main.rs:1739-1763 | the canonical form agrees with the value key by key and is ordered at every depth, by the ladder under `thinkingLevelMap` and `values` alone |
| Canonical.CanonicalDecidesSameByKey | xtask/src/main.rs:1722-1763 | for all values: equal canonical forms iff they agree, at every depth, key by key, the entries of one key in order; under either order |
| Canonical.CanonicalDecidesSameUpToOrder | xtask/src/main.rs:1722-1763 | for values with distinct keys at every depth: iff one is the other with object entries permuted at some depths |
| Canonical.CanonicalizeIsIdempotent | xtask/src/main.rs:1739-1763 | canonicalizing twice changes nothing, repeated keys included |
| CatalogDiff.IndexRows | xtask/src/main.rs:1765-1778 | refused unless every row has a string id; the index is sorted and maps each id to its last row |
| CatalogDiff.RowIdIs | xtask/src/main.rs:1771-1774 | the id of a row is the string at its first entry named `id` |
| CatalogDiff.RunDiffCatalog | xtask/src/main.rs:1686-1706 | the report is the classification of each id of the sorted union, in order |
| CatalogDiff.UnionIdsAreTheUnion | xtask/src/main.rs:1687-1689 | the walked ids are strictly increasing and are exactly those of either side |
| CatalogDiff.DiffReportsExactly | xtask/src/main.rs:1680-1706 | the reported ids are strictly increasing, and a line is reported iff it is the classification of its id |
| CatalogDiff.DiffSaysWhatHappened | xtask/src/main.rs:1692-1703 | an id is added iff only upstream has it, removed iff only disk has it, changed iff both have it and the rows do not agree key by key, with their field changes |
| CatalogDiff.ChangedIffNotReordered | xtask/src/main.rs:1697-1702 | a row on both sides is reported as changed iff the two do not agree key by key; for rows with distinct keys at every depth, iff the one is no reordering of the other |
| CatalogDiff.RunFieldDiff | xtask/src/main.rs:1785-1806 | the two loops give the canonical sets, then the drops |
| CatalogDiff.LinesAreExact | xtask/src/main.rs:1780-1806 | for rows with distinct keys: a line is in the report iff its key has different canonical values in the two rows and it shows both |
| CatalogDiff.OneLinePerKey | xtask/src/main.rs:1780-1806 | for rows with distinct keys: no key has two lines |
| CatalogDiff.LinesAreInOrder | xtask/src/main.rs:1790-1804 | for all rows: first the lines of the keys that stay or come, then those of the keys that go, each in the order of keys |
| CatalogDiff.ChangesPatchOldIntoNew | xtask/src/main.rs:1780-1806 | for rows with distinct keys: the lines, applied to the old row, give the new one up to the order of keys |
| CatalogDiff.ChangedIffALine | xtask/src/main.rs:1676-1677 | for rows with distinct keys: the pair differs canonically iff it has a line |
| CatalogDiff.NoLineIff | xtask/src/main.rs:1785-1806 | for all rows: no line iff every entry of the new row has the value the old row first gives its key, and no key went away |
| CatalogDiff.RepeatedKeyHasNoLine | xtask/src/main.rs:1697-1702 | a changed row without a line: the second of two equal entries went away |
| CatalogPins.RunApplyDeltas | xtask/src/main.rs:1258-1310 | the in-place loop gives the rows, or the first refusal with its reason |
| CatalogPins.EditChangesOwnKey | xtask/src/main.rs:1277-1307 | an edit succeeds iff the key is there and a pin parses to another value; no other key changes |
| CatalogPins.PinsChangeExactlyWhatTheyName | xtask/src/main.rs:1247-1310 | with distinct ids, keys and targets: success iff every delta of the catalog is live on the upstream rows, and then each row keeps its place and each entry is dropped, pinned where it stands or kept |
| CatalogPins.DeltasInTurn | xtask/src/main.rs:1258-1310 | for all rows and all tables that do not name the id, repeated ids, keys and targets included: success iff each delta says something about the value the earlier ones have made, and then every key of the first row of every id reads what they make of its value |
| CatalogPins.RefusedBecause | xtask/src/main.rs:1264-1306 | each reason for a refusal with its exact condition, in the order they are asked |
| CatalogPins.FirstRefusal | xtask/src/main.rs:1258-1310 | a table is refused for its first delta that cannot be applied after those before it |
| Revisions.CheckOneRevisionPerProvider | xtask/src/main.rs:1529-1575 | accepted iff some assignment of one revision to each provider agrees with every recorded revision, that is iff no two recorded revisions differ for one file or for a file and its classifier file; a refusal names the first such pair and its remedy |
| Revisions.NoConflictIffAssignment | xtask/src/main.rs:1515-1528 | no two recorded revisions of a provider differ iff one assignment agrees with all of them |
| Revisions.ProviderOfFile | xtask/src/main.rs:1530-1534 | one suffix `-classifiers` is stripped, and nothing else |
| Revisions.SameProviderIff | xtask/src/main.rs:1530-1534 | two files are one provider's iff they are equal or one is the other, without the suffix, and the suffix |
| Revisions.RemedyIs | xtask/src/main.rs:1545-1562 | the remedy: run again iff both were fetched, name both files iff the first skip was by name, else fetch the skipped one and say why |
| RenameEcho.RenameEcho.Claim | crates/cyrup-acp/src/commands.rs:895-898 | one more claim: the claim step of the interleavings |
| RenameEcho.RenameEcho.Take | crates/cyrup-acp/src/commands.rs:904-908 | yes iff a claim is outstanding, and then it is consumed: the delivery step, which mutes the next event iff yes, whatever it is about |
| RenameEcho.RenameEcho.DropClaim | crates/cyrup-acp/src/commands.rs:916-933 | a kept claim stands, another is released, never below zero: the answer step or the failure step |
| RenameEcho.StepKeepsInv | crates/cyrup-acp/src/commands.rs:868-883 | every step of every task keeps the balance of claims, events and updates, those of `/name` and those of others apart |
| RenameEcho.StepKeepsLog | crates/cyrup-acp/src/commands.rs:868-883 | every step keeps, rename by rename, one event that waits, was muted or was pumped, and one update of its own for each answered `/name` |
| RenameEcho.OneUpdateForEachIff | crates/cyrup-acp/src/commands.rs:870-880 | over every interleaving, once nothing is under way: the client was told exactly once of each rename iff no event of another rename was delivered while a claim stood |
| RenameEcho.ToldOnceIff | crates/cyrup-acp/src/commands.rs:870-880 | and in any case a `/name` was told once by itself and again if its event was pumped, another rename once unless its event was muted; the pumped events of `/name` and the failures that found no claim are as many as the muted events of others |
| RenameEcho.NeverToldTwice | crates/cyrup-acp/src/commands.rs:870-880 | at every moment of a run in which no event of another rename was delivered while a claim stood, no rename was told twice and no failure found its claim taken |
| RenameEcho.NoMoreUpdatesThanRenames | crates/cyrup-acp/src/commands.rs:875-880 | in totals, at every moment of every interleaving: no more updates than renames, less the failures that found no claim |
| RenameEcho.AsManyUpdatesAsRenames | crates/cyrup-acp/src/commands.rs:875-880 | in totals, once nothing is under way: the counter is 0, and there are as many updates as renames less the failures that found no claim |
| RenameEcho.OvertakenNameIsToldTwice | crates/cyrup-acp/src/commands.rs:870-880 | after any quiet run, without a failure: a `/name` that another rename overtakes is told twice, the other one never, and the totals stay even |
| RenameEcho.FailureCanCostAnUpdate | crates/cyrup-acp/src/commands.rs:882-883 | after any quiet run, a failing `/name` around the delivery of another rename leaves that rename without an update |
| CommandCatalog.ProjectCatalog | crates/cyrup-acp/src/commands.rs:1379-1456 | the pass with a set of seen names gives the first kept row of each name, in sorted order |
| CommandCatalog.MergeCommands | crates/cyrup-acp/src/commands.rs:1477-1487 | the pass over built-ins and user commands gives the first of each name |
| CommandCatalog.CommandIs | crates/cyrup-acp/src/commands.rs:1433-1453 | a command has the trimmed name, the trimmed description or else where the row comes from, and the hint unless it is empty |
| CommandCatalog.KeptIs | crates/cyrup-acp/src/commands.rs:1418-1430 | a row is kept iff its trimmed name is not empty and, without skills, does not start with `skill:` |
| CommandCatalog.RowOrderIs | crates/cyrup-acp/src/commands.rs:1384-1413 | extensions, then prompts, then skills, then the others; by the raw name inside all groups but the first |
| CommandCatalog.FirstWinsKeepsFirsts | crates/cyrup-acp/src/commands.rs:1431-1433 | a command is in the result iff no earlier one has its name |
| CommandCatalog.ProjectionIsAdvertisable | crates/cyrup-acp/src/commands.rs:1315-1330 | names are unique and non-empty, no description is empty, no skill slips through the gate, and every kept name is there |
| CommandCatalog.ProjectionFollowsOrder | crates/cyrup-acp/src/commands.rs:1369-1371 | the list follows the sorted rows: each command is that of a kept row, groups in the order extension, prompt, skill, other, and by raw name inside all but the first |
| CommandCatalog.HashOrderDoesNotMatterIff | crates/cyrup-acp/src/commands.rs:1359-1377 | for every catalog: all orders of the rows that keep that of the extensions give one list, iff kept rows that tie outside the extensions give one command or a kept row before them has their name |
| CommandCatalog.ProjectionIgnoresHashOrder | crates/cyrup-acp/src/commands.rs:1359-1377 | under that condition permuting the rows, extensions among themselves excepted, changes nothing |
| CommandCatalog.DistinctRawNamesAreOrderFree | crates/cyrup-acp/src/commands.rs:1359-1377 | the condition holds when no group outside the extensions has a raw name twice, as rows keyed by name in a hash map have not |
| CommandCatalog.BuiltinsLead | crates/cyrup-acp/src/commands.rs:1458-1475 | the built-ins come first and whole, no later command has a built-in's name, and every user name is there |
| Paths.RunNormalize | crates/cyrup-acp/src/ids.rs:40-56 | the component stack ends as the specification says |
| Paths.NormalizeWalks | crates/cyrup-acp/src/ids.rs:34-39 | on absolute paths the normalized path is the plain path to where walking the components leads in a link-free tree, the root being its own parent |
| Paths.NormalizeKeepsWalk | crates/cyrup-acp/src/ids.rs:34-39 | of any path, relative ones too, and from any location: normalizing does not change where it leads |
| Paths.NormalizeIsIdempotent | crates/cyrup-acp/src/ids.rs:34-39 | of an absolute path the result is absolute, has no `.` and no `..`, and normalizing it again changes nothing |
| Paths.NormalizeComposes | crates/cyrup-acp/src/ids.rs:102-112 | for a relative second path, joining to the path or to the normalized path normalizes to the same, and leads where walking on leads |
| Paths.ResolveWalks | crates/cyrup-acp/src/ids.rs:106-112 | a resolved path is plain and absolute and leads where walking from the cwd, or from the root, leads |
| Paths.TextWalks | crates/cyrup-acp/src/ids.rs:40-56 | a path as a text leads where its segments do: empty ones and `.` stay, `..` goes up, a name goes down, from the root when it starts with a separator |
| Paths.NormalizeGivesForm | crates/cyrup-acp/src/ids.rs:40-56 | the normalized path of any path, relative ones too, has no `.` and `..` only where it starts |
| Paths.ResolveSessionFile | crates/cyrup-acp/src/ids.rs:156-178 | the checks in order, with their errors; accepted iff the candidate is absolute and walks to a location the root holds, onto a `.jsonl` name, and then the plain path there |
| Paths.AcceptedSessionFilesAreBelowRoot | crates/cyrup-acp/src/ids.rs:147-178 | the same of the specification; an absolute root holds what is at or below where it walks, a relative one nothing, or everything when its components cancel out |
| Paths.SessionFileNames | crates/cyrup-acp/src/ids.rs:171-176 | the last name of an accepted file is something and then `.jsonl` |
| Paths.EmptyRootHoldsAnyFile | crates/cyrup-acp/src/sessions.rs:218-220 | under the empty root a `.jsonl` file of any name in any directory is accepted |
| Paths.ExportPathIn | crates/cyrup-acp/src/ids.rs:248-265 | the composition and the containment check, with their errors; accepted iff the directory is absolute and the name walks to a child of it, and then that child |
| Paths.ExportStaysInDirectory | crates/cyrup-acp/src/ids.rs:229-265 | the check without the validator: any id at all, separators and dots included, is exported iff its name walks to a child of the directory, and then to that child |
| Paths.ExportsAreOwnChildren | crates/cyrup-acp/src/ids.rs:229-265 | every id without a separator exports to a child of the directory, and no two ids to the same one |
| Paths.ValidIdsExport | crates/cyrup-session/src/ids.rs:23-48 | a validated id is refused only when the directory is not absolute |
| Dialog.DecimalRoundTrip | crates/cyrup-acp/src/permission.rs:284 | a decimal numeral reads back as its number |
| Dialog.ChoiceIdIs | crates/cyrup-acp/src/permission.rs:284 | the id of a position is `choice-` and its one numeral without leading zeros |
| Dialog.KindsAre | crates/cyrup-acp/src/permission.rs:274-289 | hints are given in the two known dialogs only, where exactly the options that start with `Reject` are rejections |
| Dialog.DialogOptionTable.Mint | crates/cyrup-acp/src/permission.rs:274-297 | table and advertised options in the order of the list, under the ids of their positions, with kinds only for the two known dialogs |
| Dialog.DialogOptionTable.ForConfirm | crates/cyrup-acp/src/permission.rs:303-316 | yes then no, and nothing else |
| Dialog.DialogOptionTable.ReplyFor | crates/cyrup-acp/src/permission.rs:349-429 | the reply is that of the first entry with the selected id; no approval and no text leaves that is not a selected entry, and a cancelled or unknown outcome is `false` for a confirm and no text for the others |
| Dialog.MintedIdsAreInverse | crates/cyrup-acp/src/permission.rs:274-297 | for a list of any length the ids are pairwise distinct and choosing the i-th answers option i |
| Dialog.OnlyMintedIdsResolve | crates/cyrup-acp/src/permission.rs:399-429 | an outcome resolves iff it selects a minted id; all others are `false` for a confirm and no text for the others |
| Dialog.DenialsAre | crates/cyrup-acp/src/permission.rs:387-429 | for any table: what leaves a dialog is an entry that was selected, or the denial of its kind |
| Dialog.ConfirmOnlyOnYes | crates/cyrup-acp/src/permission.rs:299-316 | a confirm dialog answers true iff its own yes id is selected |

## Left out

- The live session, host services, event pump, turn actor and translator: only the steps the comments state are modelled (one event per successful rename, which frame a call sends).
- The transport, the JSON-RPC SDK and the schema types: a frame is a datatype with the fields the ledger sets, and a `_meta` object is its three optional parts.
- `ToolCallLedger::get_mut` and what a caller can do to an entry through it, `get`, `contains`, `class_of` and `len`: the first bypasses the frames, the others are lookups.
- `ToolClass::of`, file snapshots and diffs, human-readable texts and log lines: settled by reading one branch.
- Cancelling a `/name` between its rename and keeping its claim, and a session replaced while events wait: the steps are claim, rename, then answer, or claim, then fail, and every event is delivered in order. The automatic title of a session (`sessions.rs` 2717-2752) takes the same steps.
- The wrap-around of the claim counter: claims are a natural number.
- TsCursor.Parser.ParseValue: works on characters where the source works on bytes; an error carries the text left, which fixes the byte position but is not that number, and which error a `\u` cut short by a multi-byte character gives may differ; the cursor after an error, which no caller reads, is not stated.
- `parse_models_module`, `object_values`: they drop the keys of an object.
- The meaning of numerals as numbers: they are text, as in `Val`.
- CatalogDiff.RunFieldDiff: a line is its key and the two values; the compact rendering of the values is not modelled.
- CatalogDiff.IndexRows: a `BTreeMap` is an association list sorted by key; the order of characters stands for the order of UTF-8 bytes, which is the same.
- Printing the diff, the roster, the manifest, `curl`, `git`, the file system, environment and arguments; the tables of divergences are parameters.
- CommandCatalog.ProjectCatalog: a row is the five fields the projection reads, each a string or absent; a `HashSet` is a set; the sort is the stable sort of `Sorting`, the only possible result of one.
- CommandCatalog.MergeCommands: the built-in list is a parameter.
- Paths.AcceptedSessionFilesAreBelowRoot: the check is lexical, as the source says, so links and races are not covered; Windows prefixes are not modelled.
- Dialog: the elicitation route of input and editor dialogs, the request queue and time-outs.
