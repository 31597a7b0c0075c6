# Insulator: a verified model

Insulator is a desktop app for running and managing local coding agents. This project models eight
of its mechanisms in Dafny and proves what their code promises. Nothing here runs the program.

- **Undo of a text field** (`Utf8`, `Splices`, `UndoHistory`, `EditHistory`, `Utf16Offsets`,
  `TextField`, `TextFieldEffects`, `TextInput`, `TextFieldExamples`). A history of splices is shown
  to stand for a list of snapshots: the moments an undo goes back to. Every event of a field -
  typing, composing with an input method, completing, loading, undoing, selecting - keeps the
  history in step with the content, so the branches that drop a corrupt history are never taken, and
  undo goes strictly back through what was shown before.
- **Painted runs** (`TextRuns`): the runs that the field hands to the text layout follow one rule
  for each byte.
- **Review diffs** (`ReviewParse`, `ReviewFiles`, `ReviewHunks`, `ReviewBlocks`, `ReviewRows`,
  `ReviewRule`, `ReviewCollapse`, `ReviewExpansion`, `ReviewRuns`, `ReviewEnds`, `ReviewExamples`).
  Patch lines become rows of files, numbered and coloured; context is folded into gaps and gaps are
  opened again. Folding and any run of openings keep the rows; the two indexes stay exact; every
  opening shows at least one row more, and in the end, within the cap, all of them.
- **Query cache** (`QueryCache`, `QueryProtocol`, `QueryHits`). One owner per fetch, stale results
  refused, bounds kept, values kept while there is room. The protocol is told with a log of what
  superseded what.
- **Byte codecs of the script kernel** (`Utf8Codec`, `Base64Codec`). Decoders undo encoders, and
  exactly for which inputs they do.
- **Timers in two tables** (`Timers`, `TimerTables`, `TimerAgreement`, `TimerBatches`,
  `TimerRounds`, `TimerIntervals`, `TimerDeadlines`, `TimerExamples`). When the kernel's deadlines
  and the script's callbacks agree between calls, and which timers fire and when, whatever callbacks
  schedule, clear and throw.
- **Rebuild scheduler** (`RebuildScheduler`, `RebuildTargets`, `DevScript`). Steps between awaits of
  the development script: no app change is lost, and only builds found current are launched.
- **Snippet merging** (`Snippets`).

Code that updates state in place is a class or a method with a loop, proved equal to a function on
values; lemmas about that function say what it means. Bytes are numbers below 256; a Rust `str` is
a byte sequence satisfying `Utf8.Valid`, which is proved to be the UTF8-octets grammar in section 4
of RFC 3629. Times are passed in as numbers.

## What the code does not keep

Each is shown with an input, and with the exact condition under which the promise holds.

- A word armed by a double click outlives the content it was found in: extending the selection
  after the content changed can put the selection outside the text
  (`TextFields.StaleWordLeavesTheText`, `TextFields.ExtendStaysInsideIff`).
- A composition undoes in one step to where it began, but not when it goes on inside a step that an
  earlier one left open: loading the content that is there takes the mark off and leaves the step
  open, and one undo then takes back both compositions
  (`TextFieldExamples.CompositionsCanUndoTogether`, `TextFields.CompositionUndoesInOneStep`).
- A redo puts the caret behind the text of its step, which need not be where the edit left it: typing
  that shares its end with what it replaced leaves it further behind
  (`TextFieldExamples.RedoCanMoveTheCaret`, `TextFields.TypedCaretIff`), and a composition may leave it
  anywhere (`TextFieldExamples.ComposedCaretCanMove`, `TextFields.RedoCaretIff`).
- Folding hides at least two rows to a gap, opening may leave one
  (`ReviewExamples.OneRowCanStayHidden`, `ReviewRuns.ExpandKeepsPairs`).
- Folding loses rows of a run that hides more than 2^32 - 1 of them
  (`ReviewExamples.FoldingCanLoseRows`, `ReviewCollapse.CollapsedShowsEveryRow`).
- A deleted line that starts with `-- `, or an added one that starts with `++ `, is taken for the
  name line of a file (`ReviewHunks.DeletedDashesVanish`); an empty line of a hunk, as Git writes an
  empty context line where `diff.suppressBlankEmpty` is set, is skipped without being counted
  (`ReviewHunks.EmptyLineVanishes`). Otherwise, while numbers fit, both sides are whole
  (`ReviewHunks.HunkShowsBothSidesIff`).
- A callback that throws strands the one-shot timers behind it in its batch
  (`TimerExamples.ThrowStrandsTheSecond`, `TimerBatches.SameIdsAfterStepIff`); an id that comes round
  while it still waits in a batch fires the new timer before its time
  (`TimerExamples.ReusedIdFiresEarly`, `TimerBatches.FiresInTimeThroughoutIff`); and refreshing a timer
  of the batch that runs does not postpone it (`TimerExamples.RefreshIsLost`,
  `TimerRounds.RefreshesPostponeNothing`).
- A daemon-only change that is queued during the initial build waits for the next change
  (`RebuildScheduler.DaemonChangeIsStranded`, `RebuildScheduler.DaemonChangeLostIff`); the startup
  block can launch its older build on top of a newer one (`RebuildScheduler.StartupCanLaunchLast`,
  `RebuildScheduler.LaunchesInOrderIff`).

Where comments and code differ the code is followed: the comment at `src/query.rs:88-89` says that
entries being fetched are never evicted, but beyond 64 of them the code evicts the oldest; the one at
`src/input.rs:479-480` says that a redo puts the caret where the edit left it, but the step does not know
where that was.

## Model

| member | source | states |
|---|---|---|
| Utf8.ValidIffParses | src/js_repl_bootstrap.js:119-145 | What it means that the encoder's output is UTF-8, as a Rust `str` is: bytes are valid exactly when they parse as UTF8-octets of RFC 3629. |
| Splices.BoundaryOfBoth | src/input.rs:512-526 | A boundary of one text inside equal bytes is a boundary of the other, which is why backing off in one is enough. |
| Splices.CommonPrefixLen | src/input.rs:514-526 | The result is the longest common start that ends a character in both texts. |
| Splices.CommonSuffixLen | src/input.rs:529-541 | The result is the longest common end that starts a character in both texts. |
| Splices.TrimmedSplice | src/input.rs:500-510 | The splice without its longest common affixes, the suffix taken from what the prefix left. |
| Splices.TrimmedIsSameEdit | src/input.rs:496-510 | The trimmed splice turns the content into the same text, and cuts old and new text at character boundaries. |
| Splices.TrimIsMinimal | src/input.rs:496-510 | No character at either end of what is left is shared. |
| Splices.TrimmedIsEmptyIffUnchanged | src/input.rs:340-343 | The trimmed splice is empty exactly when the splice changes nothing. |
| UndoHistory.RecordSavesSnapshot | src/input.rs:334-388 | Recording keeps the history consistent; it is pushing a snapshot of content and selection, capped, unless the edit changes nothing or continues the newest gesture - text typed at its end, or a deletion against its start, less than the interval later and with no seal between; redo is dropped. |
| UndoHistory.CoalescedStep | src/input.rs:350-377 | A typing, backspace or forward-delete run that grows its step still splices back to the content the run began with. |
| UndoHistory.CompositionSavesOneSnapshot | src/input.rs:390-427 | A composition splice inside the open step amends it without a new moment; any other closes that step and saves one snapshot. |
| UndoHistory.FinalizeForgetsOnlyNoOps | src/input.rs:429-441 | Closing a composition forgets its moment exactly when that moment shows the present content. |
| UndoHistory.SealKeepsMoments | src/input.rs:445-449 | Sealing keeps every moment, and nothing joins the sealed step. |
| UndoHistory.CappedChain | src/input.rs:451-457 | Dropping the oldest steps drops the oldest moments and nothing else. |
| UndoHistory.UndoRestoresNewestMoment | src/input.rs:459-477 | Undo shows exactly the newest moment, content and selection: the clamps change nothing and the corrupt branch is not taken; it becomes the moment redo starts from. |
| UndoHistory.RedoReturns | src/input.rs:479-493 | Redo reverses the newest undo, is never refused as corrupt, and leaves a caret behind the text of its step; the uncapped push keeps both stacks within 1000 together. |
| UndoHistory.RecordedCaret | src/input.rs:334-388 | After recording, the newest step ends where the edit did but for what its text shares at its end with the text it replaced, whether it joined or not. |
| UndoHistory.RedoUndoesUndo | src/input.rs:463-493 | An undo and a redo give back the content and the whole history. |
| UndoHistory.UndosThenRedos | src/input.rs:463-493 | k undos reach the content of the k-th newest moment, and k redos give back content and history. |
| UndoHistory.SteadyTypingIsOneStep | src/input.rs:350-363 | Typing on in time, however long, adds no moment to go back to: it undoes with the step it joined. |
| UndoHistory.KeystrokeJoins | src/input.rs:350-363 | Text typed at the end of typing within the interval joins it and can be joined in turn. |
| UndoHistory.PauseSeparates | src/input.rs:350-354 | After a pause of the interval nothing joins. |
| UndoHistory.DeletionJoins | src/input.rs:363-376 | A deletion that ends or starts where the newest deletion starts, within the interval, adds no moment and can be joined in turn. |
| UndoHistory.SteadyDeletingIsOneStep | src/input.rs:363-376 | Steady backspacing, forward deleting and any mix of them, however long, add no moment to go back to. |
| EditHistories.EditHistory.Record | src/input.rs:334-388 | The two stacks become what `Recorded` says for the trimmed splice. |
| EditHistories.EditHistory.RecordComposition | src/input.rs:390-427 | The two stacks become what `RecordedComposition` says. |
| EditHistories.EditHistory.FinalizeComposition | src/input.rs:429-441 | The open step is closed, or popped when it changed nothing. |
| EditHistories.EditHistory.Seal | src/input.rs:445-449 | Only the newest step changes: it is sealed. |
| EditHistories.EditHistory.Push | src/input.rs:451-457 | The step is pushed and the oldest beyond the cap fall off. |
| EditHistories.EditHistory.Undo | src/input.rs:459-477 | New stacks and result are those of `Undone`. |
| EditHistories.EditHistory.Redo | src/input.rs:479-493 | New stacks and result are those of `Redone`. |
| Utf16Offsets.OffsetFromUtf16 | src/input.rs:2022-2033 | The loop computes `FromUtf16`, for any bytes. |
| Utf16Offsets.OffsetToUtf16 | src/input.rs:2035-2046 | The loop computes `ToUtf16`, for any bytes. |
| Utf16Offsets.ToUtf16IsUtf16Length | src/input.rs:2035-2046 | On boundaries the count is the length of the UTF-16 string that the bytes before decode to. |
| Utf16Offsets.FromUtf16IsLeastBoundary | src/input.rs:2022-2033 | The byte offset is the least boundary before which the text decodes to that many units or more, or the end. |
| Utf16Offsets.FromUndoesTo | src/input.rs:2022-2046 | Byte offsets on boundaries survive the trip through UTF-16. |
| Utf16Offsets.ToUndoesFromIff | src/input.rs:2022-2046 | UTF-16 offsets survive the trip exactly when they fall between characters inside the text. |
| Utf16Offsets.ConversionsAreMonotone | src/input.rs:2022-2046 | Both conversions keep order, strictly so on boundaries for the one to UTF-16. |
| Utf16Offsets.RangeFromUtf16Denotes | src/input.rs:2052-2054 | Both ends of a range are the first boundaries with the given number of units before them, or the end of the text. |
| Utf16Offsets.RelativeRangeDenotes | src/input.rs:2056-2063 | The ends of a relative range are counted from the units before its base. |
| Utf16Offsets.RangeFromUtf16Fits | src/input.rs:2052-2054 | Any ordered UTF-16 range becomes an ordered byte range on boundaries inside the text. |
| Utf16Offsets.RelativeRangeStartsAtBase | src/input.rs:2056-2063 | A range relative to a base never starts before it, and the empty one stays at it. |
| TextFields.ReplaceRangeKeeps | src/input.rs:987-1014 | A completion insert, refused or not, keeps the field's invariant and offers to undo nothing unseen. |
| TextFields.ReplaceTextKeeps | src/input.rs:2147-2185 | Typing over marked text, a given range or the selection keeps the invariant; its target is on boundaries. |
| TextFields.ReplaceAndMarkKeeps | src/input.rs:2187-2237 | Composing keeps the invariant: marked range and selection on boundaries, marked text inside the open step; relative ranges are clipped to the marked text. |
| TextFields.NewBaseline | src/input.rs:1122-1159 | What loading and clearing leave - other content without history, or the same content with its history - keeps the invariant and the order of moments. |
| TextFields.UndoGoesStrictlyBack | src/input.rs:1849-1889 | After any run of events undo is never refused as corrupt and shows its newest moment; the moments are contents and selections that the field showed in the run, at strictly rising places of it, so undoing again goes strictly back. |
| TextFields.RunKeepsOrder | src/input.rs:326-493 | In any run the moments that undos and redos go through are those offered before and then those shown in it, in order, with some taken out. |
| TextFields.UndoKeeps | src/input.rs:1849-1860 | Undo keeps the invariant and moves along the list of moments without changing it. |
| TextFields.RedoKeeps | src/input.rs:1862-1871 | So does redo. |
| TextFields.CompositionUndoesInOneStep | src/input.rs:2187-2237 | A whole composition with any revisions, however it ends - committed, unmarked or composed to nothing - is one step, or none when it leaves the content as the step found it; undo goes back to the content and selection it began with, exactly unless it began inside a step left open, and then to where that step began. |
| TextFieldExamples.CompositionsCanUndoTogether | src/input.rs:402-411 | A run from the empty field in which one undo takes back two compositions. |
| TextFields.RevisionsKeepTheStep | src/input.rs:390-411 | Any number of revisions of marked text amend one step. |
| TextFields.AnyEndClosesTheStep | src/input.rs:2142-2237 | Committing, taking the mark off and composing to nothing add no step, and forget the open one exactly when nothing changed over all. |
| TextFields.RedoCaretIff | src/input.rs:479-493 | For the newest step of any field, undo and redo give back content and history, and the caret exactly if it stood behind the text of the step. |
| TextFields.TypedCaretIff | src/input.rs:2147-2185 | An undo and a redo of typing bring the caret back exactly when the text shares no end with what it replaced. |
| TextFields.CommittedCaretIff | src/input.rs:2147-2185 | An undo and a redo of a committed composition bring the caret back exactly when the marked text was the end of what its step composed. |
| TextFieldExamples.RedoCanMoveTheCaret | src/input.rs:479-493 | A run from the empty field: "xb" typed over a selected "ab" leaves the caret at 2, and after an undo and a redo it is at 1. |
| TextFieldExamples.ComposedCaretCanMove | src/input.rs:479-493 | A run from the empty field: "ab" composed with the caret at 0 and unmarked, which an undo and a redo put at 2. |
| TextFields.ExtendStaysInsideIff | src/input.rs:2006-2020 | Extending the selection stays on boundaries inside the text exactly when the ends of the armed word that stick out still do. |
| TextFields.StaleWordLeavesTheText | src/input.rs:2006-2020 | An input for which it does not: a word armed before the content was loaded anew. |
| TextFieldEffects.CompletionShows | src/input.rs:987-1014 | A completion in a writable field whose clamped range starts and ends characters puts its text in place of the range and the caret behind it, marks nothing, is undone alone and is joined by nothing; any other changes nothing. |
| TextFieldEffects.TypingShows | src/input.rs:2147-2185 | Typing puts its text over the marked text, else over what the given UTF-16 units denote, else over the selection, with the caret behind it and nothing marked. |
| TextFieldEffects.ComposingShows | src/input.rs:2187-2237 | Composing puts its text over its target - units counted from the start of marked text and moved into it - and marks it unless it is empty; the selection is what the given units denote from the start of the text, or the caret behind it. |
| TextFieldEffects.LoadingShows | src/input.rs:1122-1159 | Loading leaves the given content with the caret at its end and nothing marked, and the history only if the content was there; clearing is loading nothing. |
| TextFieldEffects.UndoAndRedoShow | src/input.rs:1849-1871 | Undo and redo do nothing in a read-only field, with text marked or with nothing to go to; else they show the newest moment, or what undo takes back again with the caret behind its text. |
| TextFieldEffects.UnmarkShows | src/input.rs:2142-2145 | Taking the mark off changes neither content nor selection. |
| TextFieldEffects.ExtendingShows | src/input.rs:2006-2020 | The selection lies between the end that stays and the offset, with the armed word; the live end is in front exactly when moved before the other. |
| TextFieldEffects.DragSelects | src/input.rs:2006-2020 | Of a drag only its last offset counts: it selects from where it began to there. |
| TextFieldEffects.DragKeepsWord | src/input.rs:2006-2020 | A drag from a double click selects from the word to its last offset, with the whole word on either side. |
| TextFieldEffects.ClicksHoldWord | src/input.rs:1891-1975 | A double click on a word, and a triple click, start such a drag. |
| TextFieldEffects.SelectingShows | src/input.rs:1059-1074 | A range is selected if it is ordered, inside the content and on boundaries; any other changes nothing. |
| TextInputs.TextInput.ReplaceByteRange | src/input.rs:987-1014 | The fields become what `ReplaceRange` says and the invariant holds. |
| TextInputs.TextInput.ClearAll | src/input.rs:1122-1140 | The fields become what `Clear` says and the invariant holds. |
| TextInputs.TextInput.Load | src/input.rs:1142-1159 | The fields become what `SetContent` says and the invariant holds. |
| TextInputs.TextInput.RecordEditHistory | src/input.rs:1827-1847 | The history records the splice, as a composition or as an edit. |
| TextInputs.TextInput.ReplaceTextInRange | src/input.rs:2147-2185 | The fields become what `ReplaceText` says and the invariant holds. |
| TextInputs.TextInput.ReplaceAndMarkTextInRange | src/input.rs:2187-2237 | The fields become what `ReplaceAndMark` says and the invariant holds. |
| TextInputs.TextInput.UnmarkText | src/input.rs:2142-2145 | The mark goes and the open step is closed; the invariant holds. |
| TextInputs.TextInput.UndoStep | src/input.rs:1849-1860 | The fields become what `Undo` says and the invariant holds. |
| TextInputs.TextInput.RedoStep | src/input.rs:1862-1871 | The fields become what `Redo` says and the invariant holds. |
| TextInputs.TextInput.ApplyHistoryStep | src/input.rs:1873-1889 | Content and selection are those of the step and the mark goes. |
| TextInputs.TextInput.SelectRange | src/input.rs:1059-1074 | The selection is the range if it is ordered, inside the text and on boundaries, and otherwise stays. |
| TextInputs.TextInput.ExtendSelectionTo | src/input.rs:2006-2020 | The live end moves, flips when the ends cross, and an armed word stays selected. |
| TextRuns.RunsFollowTheRule | src/input.rs:2522-2606 | Runs have positive length, tile the text, and every byte has its token's colour, the background of active match over selection over match, and the underline of marked text. |
| TextRuns.NeighboursCutNothing | src/input.rs:2533-2551 | Neighbouring boundaries are increasing, inside the text, and cut no range. |
| TextRuns.OnlyFirstCovers | src/input.rs:2553-2573 | Among disjoint ranges only the first that ends behind the start can cover a piece. |
| TextRuns.ActiveMustBeAMatch | src/input.rs:2575-2579 | Why the active match must be one of the matches: another one may be painted nowhere. |
| ReviewParse.ParseLines | src/review_diff.rs:352-546 | The loop over the patch computes `FedAll`: files with their status, rows, numbers, tokens and compact gaps; no index into the files is out of range. |
| ReviewFiles.ParsedFilesAreExact | src/review_diff.rs:352-412 | Every row belongs to a file; the header rows name the paths of the patch in order; the files are those of the summary with their counts and one more for each other path, so the totals are those of the summary. |
| ReviewHunks.HunkAdds | src/review_diff.rs:458-546 | A hunk, in compact and in full context, adds to the old and to the new side its kept lines, numbered in order from what its header tells and no further than the largest number. |
| ReviewHunks.HunkShowsBothSidesIff | src/review_diff.rs:425-546 | Both sides of a hunk come out whole and numbered in order from its header exactly when none of its lines is empty or reads like a file name and the numbers fit 32 bits. |
| ReviewHunks.DeletedDashesVanish | src/review_diff.rs:426-432 | An input whose deleted line is missing, and the next one misnumbered. |
| ReviewHunks.EmptyLineVanishes | src/review_diff.rs:500-502 | An input with an empty context line, which both sides miss, and the next one misnumbered. |
| ReviewHunks.HunkIsColoured | src/review_diff.rs:500-533 | Each side is coloured as if it stood alone from the start of the hunk: rows of the new side as its kept lines, deleted rows as among the kept lines of the old side; the file keeps its status. |
| ReviewBlocks.HunkIsSpelled | src/review_diff.rs:500-546 | The rows of a hunk are its kept lines, in order, each with its marker and text. |
| ReviewBlocks.BlockMarksFile | src/review_diff.rs:405-424 | The lines up to the next header give their file the status that the last of them says - added, deleted or binary - and change no other file. |
| ReviewBlocks.FirstHunkGap | src/review_diff.rs:458-482 | Before the first hunk of a file a compact patch has a leading gap for the lines before its start, on the side with more of them, if there are any. |
| ReviewBlocks.NextHunkGap | src/review_diff.rs:458-490 | Between two hunks it has a gap for the lines left out, on the side with more of them, or a bare header where none is. |
| ReviewBlocks.UnplacedHunkHasNoNumbers | src/review_diff.rs:435-456 | Rows behind a header that tells no place have no numbers. |
| ReviewParse.FullContextHasNoGaps | src/review_diff.rs:458-498 | With full context the parser leaves all gaps to folding. |
| ReviewRows.CollapseFileContext | src/review_diff.rs:588-617 | The loops compute `FileInto`. |
| ReviewRows.CollapseLeadingContext | src/review_diff.rs:619-628 | A run before the first change keeps its last three rows, or all when one or none would hide. |
| ReviewRows.CollapseTrailingContext | src/review_diff.rs:630-639 | A run behind the last change keeps its first three rows, or all when one or none would hide. |
| ReviewRows.CollapseBetweenContext | src/review_diff.rs:641-652 | A run between changes keeps three rows at each end, or all when one or none would hide. |
| ReviewRows.PushContextGap | src/review_diff.rs:654-678 | A gap holds the first 2^32 - 1 rows at most and takes the next id, which wraps. |
| ReviewRows.CollapseContext | src/review_diff.rs:568-586 | The blocks of rows of one file are folded one after the other with one count of ids. |
| ReviewCollapse.CollapsedShowsEveryRow | src/review_diff.rs:568-678 | Every row shows in its place, hidden exactly by the rule and in a gap of the kind that the changes of its file make it; rows are kept exactly when every gap's count fits 32 bits. |
| ReviewRule.HiddenIff | src/review_diff.rs:588-652 | The rule: a row of context hides exactly if three rows of context stand between it and the changes of its file on either side, and another row of its run hides with it. |
| ReviewCollapse.CollapsedGapsAreSound | src/review_diff.rs:619-678 | Every gap hides at least two rows, all context; ids count up from zero, so they are distinct exactly while 64 bits last. |
| ReviewExpansion.RecomputeDiffLines | src/review_diff.rs:695-709 | The list holds the header positions and each file its first header. |
| ReviewExpansion.HeaderPositionsAreExact | src/review_diff.rs:695-709 | The list is increasing and holds exactly the positions of headers of known files. |
| ReviewExpansion.FirstHeaderIsLeast | src/review_diff.rs:696-706 | A file's line is its least header position, or none. |
| ReviewExpansion.CapVisibleLines | src/review_diff.rs:684-693 | The first 50,000 rows, and whether more were cut off. |
| ReviewExpansion.Snapshot.constructor | src/review_diff.rs:350-566 | The patch is parsed, folded if its context is complete, capped and indexed; the totals are those of the summary. |
| ReviewExpansion.Snapshot.FileHeadersAround | src/review_diff.rs:142-151 | The greatest header position up to the row, and the next one. |
| ReviewExpansion.Snapshot.ExpandGap | src/review_diff.rs:156-257 | Lines, indexes, flag and result become what `Expanded` says, refusals included. |
| ReviewExpansion.Snapshot.ShiftIndexes | src/review_diff.rs:242-254 | Every position behind the row moves by the rows that came in, no other. |
| ReviewExpansion.OpenGap | src/review_diff.rs:189-236 | Each direction brings rows out of the start, the end or both ends, and what is left stays one gap. |
| ReviewRuns.OpeningShows | src/review_diff.rs:164-240 | What each direction brings out, in numbers: up to 100 rows of the first or the last hidden, 200 of both ends, or all; where the cap cuts all, the end of a leading gap, the start of a trailing one, both ends of one between; the rest stays one gap with its id, place and count, and the diff counts as cut exactly then. |
| ReviewRuns.ExpandBringsOutEnds | src/review_diff.rs:189-240 | Opening changes and moves no row: it brings out that many rows from the two ends of the gap. |
| ReviewRuns.OpensExactly | src/review_diff.rs:161-188 | A request is met exactly when the gap can be opened and the rows are within the cap; it shows a row at least; one row above the cap is the most. |
| ReviewRuns.ExpandHidesFewer | src/review_diff.rs:180-188 | Every met request leaves as many rows fewer hidden as it shows. |
| ReviewRuns.ExpandKeepsGaps | src/review_diff.rs:260-273 | Gaps that are left count and hide context rows, and ids stay distinct. |
| ReviewRuns.ExpandKeepsIndexes | src/review_diff.rs:242-254 | The shifted indexes are those a fresh scan would give. |
| ReviewRuns.ExpandKeepsPairs | src/review_diff.rs:180-183 | No gap hides a single row afterwards exactly when the request does not leave one behind. |
| ReviewExamples.LongPatchIsParsed | src/review_diff.rs:370-546 | The rows of a patch with any number of context lines before its only change. |
| ReviewExamples.OneRowCanStayHidden | src/review_diff.rs:180-183 | The parsed, folded and indexed diff of a patch with 104 context lines and one addition: its gap of 101 rows opened from the start leaves a gap of one. |
| ReviewExamples.FoldingCanLoseRows | src/review_diff.rs:654-678 | A patch with 2^32 + 4 context lines before its addition, of which folding loses two. |
| ReviewRuns.AnyRunKeepsRows | src/review_diff.rs:156-257 | After any run of requests the flattened rows and all invariants are kept, and hidden rows fell by one at least for each met request. |
| ReviewRuns.ParsedPatchSurvives | src/review_diff.rs:350-565 | From a full-context patch on, the flattened lines are the parsed rows, or a start of them when the cap cut. |
| ReviewEnds.EveryRowCanShowIff | src/review_diff.rs:156-188 | All rows of a full-context patch can be brought out exactly when they are within the cap; then, whatever is opened in whatever order, the lines are the rows exactly when nothing is left to be opened. |
| QueryCaches.EvictReadyKeepsNewest | src/query.rs:209-232 | Value eviction keeps all fetches in flight and the most recently used values, as many as fit. |
| QueryCaches.LoadingVictimsAreOldest | src/query.rs:233-249 | In-flight victims are the oldest fetches and just enough. |
| QueryCaches.EvictRestoresBounds | src/query.rs:209-249 | After eviction at most `capacity` values and `capacity + 64` entries are left. |
| QueryCaches.NewestStays | src/query.rs:103-130 | The entry used last survives eviction. |
| QueryCaches.ReadMakesNewest | src/query.rs:103-111 | Reading an entry makes it the last to be evicted. |
| QueryCaches.InsertThenRead | src/query.rs:145-157 | A value inserted is there for the next read, whatever inserting it evicted. |
| QueryCaches.FulfillThenRead | src/query.rs:159-174 | So is a fetched value that was accepted. |
| QueryCaches.QueryCache.ReadKey | src/query.rs:103-130 | Entries, counters and answer become what `Read` says. |
| QueryCaches.QueryCache.InsertValue | src/query.rs:145-157 | Entries and counters become what `Insert` says. |
| QueryCaches.QueryCache.FulfillToken | src/query.rs:161-174 | The value is stored exactly when the token matches; state becomes what `Fulfill` says. |
| QueryCaches.QueryCache.AbandonToken | src/query.rs:182-190 | The slot goes exactly when the token matches. |
| QueryCaches.QueryCache.InvalidateKey | src/query.rs:193-196 | The entry goes and the generation advances. |
| QueryCaches.QueryCache.ClearAll | src/query.rs:199-202 | All entries go and the generation advances. |
| QueryCaches.QueryCache.EvictOverCapacity | src/query.rs:209-249 | The two loops leave what `Evict` says. |
| QueryProtocol.AcceptedIffFresh | src/query.rs:159-174 | A held token is accepted exactly when no invalidation, clear, insert or in-flight eviction of its key came after its issue. |
| QueryProtocol.AtMostOneAcceptable | src/query.rs:103-174 | At most one held token of a key could be accepted. |
| QueryProtocol.PendingIffOwned | src/query.rs:103-115 | A key reads as pending exactly while the token that will resolve it is held. |
| QueryProtocol.HandedOutTokenIsFresh | src/query.rs:116-130 | The token that a read returns is live, even when that read evicted. |
| QueryProtocol.AfterAnyRun | src/query.rs:87-249 | After any run of calls with single-use tokens: as many values as the capacity given, or one, and 64 entries more at most, distinct stamps, acceptance and pending as above. |
| QueryProtocol.HitsAreLatest | src/query.rs:87-202 | After any run a hit shows the value stored last, and never one from before the key was last invalidated or the cache cleared. |
| QueryHits.ValueStaysWhileThereIsRoom | src/query.rs:103-249 | A value that was read stays a hit in any run that neither drops it nor stores another and uses fewer other keys than the cache has room for. |
| Utf8Codec.Utf8Encode | src/js_repl_bootstrap.js:119-145 | The loop computes `Encoded`. |
| Utf8Codec.Utf8Decode | src/js_repl_bootstrap.js:146-179 | The loop ends on every byte array and computes `Decoded`. |
| Utf8Codec.GatherBytes | src/js_repl_bootstrap.js:158-163 | The inner loop accepts continuation bytes only and gathers their bits. |
| Utf8Codec.DecodeEncoded | src/js_repl_bootstrap.js:119-179 | Decoding an encoded string gives it back with each lone surrogate replaced by U+FFFD. |
| Utf8Codec.RoundTripIffWellFormed | src/js_repl_bootstrap.js:119-179 | It gives the string back exactly when it has no lone surrogate. |
| Utf8Codec.EncodedIsUtf8 | src/js_repl_bootstrap.js:119-145 | Whatever the string, the output is UTF-8. |
| Utf8Codec.DecodedIsWellFormed | src/js_repl_bootstrap.js:146-179 | Whatever the bytes, the output has no lone surrogate. |
| Utf8Codec.EncodeDecoded | src/js_repl_bootstrap.js:119-179 | Encoding what was decoded from UTF-8 gives back the bytes. |
| Utf8Codec.RoundTripIffUtf8 | src/js_repl_bootstrap.js:119-179 | Bytes survive exactly when they are UTF-8. |
| Utf8Codec.BytesOfScalar | src/js_repl_bootstrap.js:135-142 | The bytes of a scalar are those of the table in section 3 of RFC 3629. |
| Utf8Codec.UnitsOfScalar | src/js_repl_bootstrap.js:125-134 | Its units are those of section 2 of RFC 2781. |
| Utf8Codec.MalformedDecodes | src/js_repl_bootstrap.js:149-176 | Where no character starts one U+FFFD is read, and how many bytes are left out: one for a byte that can start none or lacks its continuation, the rest of a text that ends within a character, a whole overlong, surrogate or too large one. |
| Utf8Codec.WellFormedDecodes | src/js_repl_bootstrap.js:149-176 | Where one starts, the scalar with its bytes is read and reading goes on behind them. |
| Base64Codec.Base64Encode | src/js_repl_bootstrap.js:181-193 | The loop and the replacements compute `Encoded64`. |
| Base64Codec.Base64Decode | src/js_repl_bootstrap.js:194-211 | The loop computes `Decoded64` on a signed 32-bit accumulator. |
| Base64Codec.DigitIsIndex | src/js_repl_bootstrap.js:180 | A character's digit is its one place in the alphabet. |
| Base64Codec.ShiftKeepsLowBits | src/js_repl_bootstrap.js:203 | The unmasked, wrapping accumulator holds the last two digits in its low bits. |
| Base64Codec.DecodedStandard | src/js_repl_bootstrap.js:181-211 | Decoding standard text gives back the bytes, whatever the accumulator held before. |
| Base64Codec.DecodeEncoded | src/js_repl_bootstrap.js:180-211 | Decoding what was encoded gives back every byte sequence, in both alphabets. |
| Base64Codec.StandardText | src/js_repl_bootstrap.js:183-190 | Standard text has four characters to three bytes, digits first and padding behind. |
| Base64Codec.TextOfGroup | src/js_repl_bootstrap.js:183-190 | A group is cut into characters as section 4 of RFC 4648 cuts it. |
| Base64Codec.AnythingDecodes | src/js_repl_bootstrap.js:194-211 | Any text decodes: only digits before the first padding count, and n of them give as many bytes as 6n bits hold. |
| Base64Codec.UrlSafeText | src/js_repl_bootstrap.js:191 | URL-safe text uses its alphabet only, has no padding and is as short as its bits allow. |
| Timers.NormalizedDelay | src/js_repl_bootstrap.js:64-70 | A delay is at least one millisecond and the whole part of a number in range. |
| Timers.FreeIdIffRoom | src/js_repl.rs:74-82 | The search for an id ends exactly while there are fewer timers than ids. |
| TimerRounds.NothingDueAfterTakingInAnyRun | src/js_repl.rs:94-111 | In any run, throws and ids that come round included, nothing is due right after taking what is due: a repeating timer cannot fire twice at once. |
| TimerRounds.NothingDueAfterBatch | src/js_repl.rs:424-440 | Nothing is due right after a whole batch whose callbacks do not turn back the clock, whatever they schedule, refresh and throw: a second round at that time finds nothing. |
| TimerRounds.RefreshesPostponeNothing | src/js_repl.rs:88-92 | Refreshing timers while their batch runs changes neither which timers fire nor which are dropped or left. |
| TimerIntervals.FiringsAreApart | src/js_repl.rs:61-111 | In any run with a clock that is not turned back, a timer fires in no round before its delay has passed since it was scheduled, in none twice, and in rounds its delay apart or more; a firing in the very batch that scheduled it is the one that can be early. |
| TimerDeadlines.FiresInFirstRoundIff | src/js_repl.rs:94-111 | A waiting timer does not fire before its time, and in the first round at or after it fires exactly if no earlier callback throws and none clears or replaces it. |
| TimerDeadlines.ScheduledFiresInFirstRound | src/js_repl.rs:61-72 | For a timer that a script schedules that time is its delay later. |
| TimerDeadlines.RepeatingFiresAgain | src/js_repl.rs:102-109 | For a repeating timer it is its delay after each round that takes it. |
| TimerDeadlines.RefreshPostpones | src/js_repl.rs:88-92 | A refresh while the kernel has the timer moves it to its delay after the refresh. |
| Timers.BatchIsUnique | src/js_repl.rs:94-100 | One time has one batch: due ids by deadline, then by id. |
| TimerTables.TimerQueue.NextAvailableId | src/js_repl.rs:74-82 | The id is the first free one from the next on, around the end; never zero. |
| TimerTables.TimerQueue.Schedule | src/js_repl.rs:61-72 | The entry is added under that id, due after its delay. |
| TimerTables.TimerQueue.Clear | src/js_repl.rs:84-86 | The entry goes. |
| TimerTables.TimerQueue.Refresh | src/js_repl.rs:88-92 | A known timer starts to wait anew. |
| TimerTables.TimerQueue.TakeDue | src/js_repl.rs:94-111 | Returns the batch; one-shot timers of it leave the table and repeating ones wait anew from now. |
| TimerTables.TimerQueue.NextDeadline | src/js_repl.rs:113-115 | The least deadline, or none for no timers. |
| TimerTables.ScriptTimers.ScheduleTimer | src/js_repl_bootstrap.js:71-79 | Both tables gain the timer under the kernel's id. |
| TimerTables.ScriptTimers.ClearTimer | src/js_repl_bootstrap.js:85-90 | Both tables lose the id. |
| TimerTables.ScriptTimers.RunTimer | src/js_repl_bootstrap.js:91-96 | An unknown id does nothing; a one-shot timer leaves the map before its callback. |
| TimerTables.ScriptTimers.RunBatch | src/js_repl.rs:424-440 | One round takes what is due and calls it in order, up to a throw. |
| TimerBatches.FiresOnlyDueIff | src/js_repl.rs:424-440 | No timer fires before its time - all that a batch fires had due ids when it was taken - exactly when no callback was given an id that waited and whose new timer lived until the id's turn. |
| TimerBatches.FiresInTimeThroughoutIff | src/js_repl.rs:424-440 | In any run, throws and ids that come round included, a step fires no timer before its time exactly when none of its callbacks was given a waiting id whose new timer lived until the id's turn. |
| TimerBatches.SameIdsAfterStepIff | src/js_repl.rs:424-440 | A script keeps both tables alike; a batch does exactly when no new one-shot timer of a waiting id was called and kept by the kernel, and a throw leaves no one-shot timer behind that was neither cleared nor replaced. |
| TimerBatches.SameIdsThroughoutIff | src/js_repl.rs:53-111 | In any run, throws and ids that come round included, the tables hold the same ids between all calls exactly when every batch keeps them so. |
| TimerBatches.SameIdsFromTheStart | src/js_repl.rs:53-60 | From a start without timers and with fewer than there are ids: every timer is in time, and the tables hold the same ids throughout exactly when no throw leaves a one-shot timer behind that no callback before cleared, as when none throws. |
| TimerExamples.ThrowStrandsTheSecond | src/js_repl.rs:435-438 | A run from the start in which the first of two timers throws: the second stays in the script's table and is dead. |
| TimerExamples.RefreshIsLost | src/js_repl.rs:88-92 | A run from the start in which the first of two timers refreshes the second, which fires at once and is in no table afterwards. |
| TimerAgreement.ThrowStrandsOneShots | src/js_repl.rs:435-438 | A one-shot timer left undone stays in the script's table and is dead. |
| TimerAgreement.OneShotFiresAtMostOnce | src/js_repl_bootstrap.js:91-96 | A one-shot timer fires at most once in any run, throws and wrapped ids included. |
| TimerAgreement.ScheduledIsOneShot | src/js_repl_bootstrap.js:71-79 | A timer scheduled without repeat is one that may fire once. |
| TimerAgreement.DeadNeverFires | src/js_repl_bootstrap.js:85-96 | A cleared, replaced or stranded timer never fires again. |
| TimerAgreement.ClearedStaysSilent | src/js_repl_bootstrap.js:85-96 | A timer cleared by an earlier callback of the batch does not fire in the rest of it. |
| TimerAgreement.DueTimersFireOrDrop | src/js_repl.rs:435-438 | Every timer of a batch without throws fires, unless a callback clears or replaces it. |
| TimerExamples.ReusedIdFiresEarly | src/js_repl.rs:74-82 | A run from the start in which ids come round: a new timer fires a second before its time, and the kernel keeps an id that the script has lost. |
| RebuildScheduler.BurstBecomesOneBuild | scripts/dev.ts:385-421 | A burst of changes becomes one debounced build, of the app exactly when one of the changes or the waiting build is, with its timer armed and every change counted. |
| RebuildTargets.DaemonChangesLeaveApp | scripts/dev.ts:443-475 | In any run without app changes, from where no app build is waiting or running, the app is neither built nor relaunched. |
| RebuildTargets.BuildsWhatWaits | scripts/dev.ts:447-451 | A loop builds the target that was queued, at the present revisions, or ends. |
| RebuildTargets.NothingStartsAfterQuitting | scripts/dev.ts:483-489 | In any run after quitting no build starts, nothing is launched and no timer is armed. |
| RebuildTargets.EndsIff | scripts/dev.ts:499-504 | The script ends by itself exactly when its initial build fails. |
| RebuildScheduler.StepKeepsInv | scripts/dev.ts:407-515 | Every step between awaits keeps the invariant. |
| RebuildScheduler.NoAppChangeIsEverLost | scripts/dev.ts:407-481 | In any run, until quitting, the newest app change was tried, or its timer is armed, or it is queued while somebody builds; one loop at most drains. |
| RebuildScheduler.RestMeansLaunched | scripts/dev.ts:443-515 | With nothing going on the newest app revision was built, and launched if that succeeded. |
| RebuildScheduler.LaunchesFollowComparison | scripts/dev.ts:466-475 | Only revisions that were current when their build ended are launched, and none after quitting. |
| RebuildScheduler.LaunchesInOrderIff | scripts/dev.ts:506-509 | Launches go from older to newer, exactly unless the startup block launches after a loop launched while it was stopping or preparing. |
| RebuildScheduler.StartupCanLaunchLast | scripts/dev.ts:496-509 | A run in which it does. |
| RebuildScheduler.DaemonChangeLostIff | scripts/dev.ts:499-515 | A daemon change is lost exactly when the initial build ends well with a queued build and no newer app change. |
| RebuildScheduler.DaemonChangeIsStranded | scripts/dev.ts:499-515 | A run that ends at rest with a queued daemon build. |
| DevScript.Script.ScheduleBuild | scripts/dev.ts:407-421 | The variables become what `Scheduled` says. |
| DevScript.Script.RebuildTimerFires | scripts/dev.ts:413-420 | The debounced build is queued and the queue drained. |
| DevScript.Script.DrainBuildQueue | scripts/dev.ts:443-447 | A loop starts unless somebody builds or the script stops. |
| DevScript.Script.ContinueLoop | scripts/dev.ts:447-451 | The queued build is taken, or the loop ends and frees `building`. |
| DevScript.Script.AfterBuild | scripts/dev.ts:452-473 | Failure, quitting, a daemon build or a newer app change go on to the next build; else the app is stopped. |
| DevScript.Script.AfterStopApp | scripts/dev.ts:473-474 | The launch is prepared unless the script stops. |
| DevScript.Script.AfterPrepare | scripts/dev.ts:474-481 | The app is launched unless the script stops, and the loop goes on. |
| DevScript.Script.AfterInitialBuild | scripts/dev.ts:499-515 | The startup block launches, or leaves newer changes to a loop, or exits. |
| DevScript.Script.AfterStartupPrepare | scripts/dev.ts:508-509 | The startup block launches its build unless the script stops. |
| DevScript.Script.Cleanup | scripts/dev.ts:483-489 | The script stops once, and its timer with it. |
| Snippets.FromRangeFits | src/app.rs:756-778 | A range on boundaries is kept, any other grows to boundaries; the text is the content there; doing it twice changes nothing. |
| Snippets.FromRangeIsNearest | src/app.rs:757-767 | A snippet starts at the last boundary up to the start of the range and ends at the first from its end on. |
| Snippets.FromRangeCovers | src/app.rs:757-767 | Every byte of the content in the range is in the snippet. |
| Snippets.FromRangeLines | src/app.rs:768-777 | The lines are those of the first and the last byte. |
| Snippets.LineCountsNewlines | src/app.rs:768-777 | The line of a byte is one more than the number of newlines before it. |
| Snippets.NormalizeSnippets | src/app.rs:781-803 | The loop over the sorted snippets computes `Normalized`. |
| Snippets.NormalizedIsExact | src/app.rs:781-803 | Snippets come out in order, neither overlapping nor touching, covering the same bytes and the same places between bytes, with text and lines made anew. |
| Snippets.NormalizedStays | src/app.rs:781-803 | Doing it twice is doing it once. |
| Snippets.NormalizedIgnoresOrder | src/app.rs:785 | Snippets with the same elements, in any order and number, give the same result. |

## Left out

- Rendering, layout, focus, menus, scrolling and caret blinking; where the field needs an offset from the layout the model takes any character boundary.
- Word and grapheme boundaries and syntax tokens come from elsewhere: a word range is any range on boundaries, and the tokenizer is any function of path, line and what it carries on.
- Saturating and wrapping of 64-bit counters and sizes: byte offsets, row counts, revisions, and the clock and generation of the cache are unbounded; 32-bit line numbers, gap counts and timer ids, and 64-bit gap ids, are bounded as in the code.
- Wall-clock time: operations take the time as an argument. Waiting, timeouts of a script call and the outer loop that repeats rounds of timers are not modelled; a run is any sequence of rounds.
- Reading and writing: capturing a patch, process handling, `parse_numstat`, path unescaping and the text of hunk headers; the parser starts from the files of the summary and from lines that say whether they start a file, and its path, or a hunk, and its starts. The tag of where a diff comes from, and the two functions that put a patch together from a collected one or from reported changes, are left out.
- A script that clears a timer by a number beyond 32 bits, and one that schedules when every id is taken, for which the kernel looks for a free id without end; the model leaves the tables as they are.
- Sorting by the Rust standard library is modelled by insertion into a sorted list, and `partition_point` by its first index; neither is more than its specification.
- An exception out of `stopApp` or a launch in the development script, and the watchers, signals and process ends behind its events.
- `len` and `peek` of the cache exist for its tests only; image handling, transcripts, sessions, the daemon and the release scripts are other parts of the app.
- JavaScript shifts and masks are written as divisions, remainders and sums of disjoint bits, and the base64 accumulator as a signed 32-bit number.
- RunsFollowTheRule: assumes that tokens and matches come in order and apart and that the active match is one of the matches, as the callers provide them.
- SameIdsFromTheStart: the simple case, where ids do not come round; SameIdsThroughoutIff and FiresInTimeThroughoutIff hold for all runs.
