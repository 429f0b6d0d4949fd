# hr_helper in Dafny

A Dafny model of the randomized assignment engine of hr_helper, a small
browser tool for HR staff. It covers the roster panel, the lucky-draw panel
and the grouping panel:

- **Roster** (`roster.dfy`, from `components/SourcePanel.tsx`):
  - name counts and the duplicate badge;
  - adding pasted names;
  - importing a text file line by line;
  - removing duplicates and removing one entry.
- **Lucky draw** (`lucky_draw.dfy`, from `components/LuckyDrawPanel.tsx`):
  - the eligible pool in no-repeat and repeat mode;
  - the draw as an `Idle`/`Drawing` state machine that advances one animation frame per `Tick`, with 40 frames;
  - clearing the history.
- **Grouping** (`shuffle.dfy`, `grouping.dfy`, `export.dfy`, from `components/GroupingPanel.tsx`):
  - the Fisher–Yates shuffle;
  - cutting the shuffled roster into `ceil(n / k)` groups;
  - naming the groups, with fallback names;
  - the text of the clipboard export and of the CSV export.
- **Records** (`types.dfy`, from `types.ts`): `Participant`, `Group`, `DrawWinner`.
- **Helpers**:
  - `seqs.dfy`: `filter`, `flat`, subsequences and occurrence facts.
  - `text.dfy`: `trim`, `split`, `join`, decimal notation.
  - `wrappers.dfy`: `Option`.

Randomness, identifiers and the clock become inputs:

- Every `Math.random()` call of the shuffle becomes an explicit draw index. `ValidDraws` states the range each index must lie in.
- Every animation frame of the lucky draw receives the index it shows.
- Ids are natural numbers handed out from a counter. The application itself draws random base-36 strings.
- `Date.now()` is a parameter.
- The team-name service is a `NameSource` value: either the list it returned or an error.

## Behaviour as written in the code

The model follows the code, including these points where it behaves in ways a
reader might not expect:

- The winner of a draw is the participant shown on the 40th frame. No separate final sample is taken.
- When the team-name call throws, every group is called `Team {i+1}`. `Group {i+1}` is used only for a missing or empty entry in a list that was returned.
- `clearHistory` is not restricted to an idle panel. Clearing during a draw lets the draw finish, and its winner becomes the only record of the new history.
- A running draw keeps the pool captured when it started. Changing the repeat mode or clearing the history does not change that pool.
- File import splits only on line breaks. Only pasted text is also split on commas and semicolons.
- File import strips quotes only after dropping empty lines, so a line holding only `"` becomes a participant with an empty name.
- The no-repeat pool compares names, not ids. Once a name has won, every roster entry carrying that name is excluded.
- CSV fields are wrapped in quotes, but quotes inside a name are not doubled. Two different name pairs can therefore give the same row.
- The name counts live in a plain object, so names inherited from `Object.prototype`, such as `constructor`, are never marked as duplicates (see Findings).

## Model

| member | source | states |
|---|---|---|
| Shuffle.ShuffleArray | components/GroupingPanel.tsx:17-24 | the loop over a copy returns the reference Fisher–Yates result for the given draws; it has the input's length and the same multiset of elements |
| Shuffle.Swap | components/GroupingPanel.tsx:21 | the two positions exchange their elements and every other position keeps its element |
| Shuffle.SwapPermutes | components/GroupingPanel.tsx:21 | a swap keeps every element with its multiplicity |
| Shuffle.FisherYates | components/GroupingPanel.tsx:17-24 | reference definition of the loop, one turn per draw from the last index down: the result has the input's length, and the first draw's element ends in the last position, which no later turn touches |
| Shuffle.FisherYatesPermutes | components/GroupingPanel.tsx:19-22 | the shuffle is a permutation of its input for every valid draw sequence |
| Shuffle.ShuffleReachesEveryPermutation | components/GroupingPanel.tsx:19-22 | every permutation of the input is the result of some valid draw sequence |
| Shuffle.ShuffleInjective | components/GroupingPanel.tsx:19-22 | on distinct elements, different draw sequences give different orderings, so draws and orderings correspond one to one |
| Grouping.CeilDiv | components/GroupingPanel.tsx:35 | `numGroups` is the least `q` with `q * k >= n` |
| Grouping.ResolveNames | components/GroupingPanel.tsx:37-42 | when the name call throws, there is exactly one name per group |
| Grouping.GroupName | components/GroupingPanel.tsx:50 | a group name is never empty; group `i` is called by the `i`-th entry of the list or `Group {i+1}` |
| Grouping.Slice | components/GroupingPanel.tsx:46 | `slice` with bounds clamped to the length: the elements from `lo` up to `hi` when both are within the sequence, everything from `lo` when `hi` is past the end, nothing when `lo` is past the end or `hi <= lo` |
| Grouping.BuildGroups | components/GroupingPanel.tsx:44-54 | `ceil(n / k)` groups whose members, read in order, are the shuffled roster; no group is empty, none exceeds `k`, all but the last have exactly `k`; group `i` gets the `i`-th name and a fresh id |
| Grouping.PerformGrouping | components/GroupingPanel.tsx:26-58 | the request is rejected exactly when there are fewer than 2 participants, and then the current groups stay; otherwise the groups chunk the shuffle of the roster and are named from the resolved names |
| Grouping.GroupingKeepsEveryone | components/GroupingPanel.tsx:34-54 | the members of all groups together are the roster up to order; nobody is lost or duplicated |
| Grouping.GroupIdsDistinct | components/GroupingPanel.tsx:49 | the groups of one run have pairwise distinct ids |
| Grouping.FallbackNamesOnError | components/GroupingPanel.tsx:40-42 | when the name call throws, group `i` is called `Team {i+1}` and these names are pairwise distinct |
| Grouping.BackfillShortList | components/GroupingPanel.tsx:50 | groups past the end of a short list, and groups whose entry is empty, are called `Group {i+1}`; a non-empty listed name is used as is |
| Grouping.FiveInPairs | components/GroupingPanel.tsx:35-47 | five people in groups of two make groups of sizes 2, 2 and 1 |
| Text.DecimalRoundTrip | components/GroupingPanel.tsx:41 | the decimal notation used in `Team ${i + 1}` reads back as the number |
| Text.DecimalInjective | components/GroupingPanel.tsx:50 | different group numbers have different notations |
| Export.ClipboardText | components/GroupingPanel.tsx:61-63 | the clipboard text is empty exactly when there are no groups, and it starts with the first group's block |
| Export.ClipboardIsLines | components/GroupingPanel.tsx:61-63 | the clipboard text is, group after group, the `--- name ---` line and one `• member` line per member, with an empty line between groups, joined by line breaks |
| Export.ClipboardReadBack | components/GroupingPanel.tsx:61-63 | splitting the clipboard text at line breaks gives back exactly those lines when no name contains a line break |
| Export.CsvRow | components/GroupingPanel.tsx:73 | a row is the group name and the member name, each between quotes, separated by a comma, with nothing else in it |
| Export.Csv | components/GroupingPanel.tsx:71-74 | the CSV text starts with the header line and is only the header exactly when there are no rows |
| Export.CsvReadBack | components/GroupingPanel.tsx:71-74 | read line by line, the CSV is the header `Group Name,Participant Name` followed by the rows |
| Export.CsvRowCount | components/GroupingPanel.tsx:72-74 | there is exactly one row per member of every group |
| Export.CsvRowsMatchRoster | components/GroupingPanel.tsx:72-74 | after a grouping, the number of rows equals the roster length |
| Export.CsvRowPlacement | components/GroupingPanel.tsx:72-73 | the row of member `m` of group `g` is `"group","member"` at the position after all earlier groups' rows and earlier members' rows |
| Export.CsvRowReadBack | components/GroupingPanel.tsx:73 | a row whose group name has no quote parses back into its two names |
| Export.CsvRowAmbiguous | components/GroupingPanel.tsx:73 | since inner quotes are not doubled, two different name pairs can produce the same row |
| LuckyDraw.AvailableParticipants | components/LuckyDrawPanel.tsx:19-21 | in repeat mode the pool is the roster; otherwise it is an order-preserving subsequence of the roster holding exactly the entries whose name is in no winner record, each as often as on the roster |
| LuckyDraw.StartDraw | components/LuckyDrawPanel.tsx:23-30 | a click is ignored while drawing or with an empty roster (the disabled button) and refused with an empty pool, both leaving the panel unchanged; otherwise the panel enters `Drawing` with a non-empty pool snapshot, at frame 0, with the last winner cleared and the history untouched |
| LuckyDraw.Tick | components/LuckyDrawPanel.tsx:35-53 | a frame shows the sampled name; before frame 40 the draw continues and nothing else changes; on frame 40 the panel is idle, the history gains exactly one record at the front for the sampled name, and that name is the last winner |
| LuckyDraw.Animate | components/LuckyDrawPanel.tsx:35-55 | running frames keeps the mode; an idle panel is left alone; while the draw runs nothing is recorded; once it stops, the panel is idle, one record for the shown name is in front of the history, that name is the last winner and it belongs to the pool snapshot |
| LuckyDraw.AnimationEndsOnLastFrame | components/LuckyDrawPanel.tsx:35-55 | from any frame of a running draw, the remaining frames end the draw with the sample of the last frame as the winner, put in front of the history |
| LuckyDraw.Draw | components/LuckyDrawPanel.tsx:23-56 | a click followed by the frames: a click that does not start leaves the panel unchanged; a started draw with 40 frames ends idle showing the 40th sample, which heads the otherwise unchanged history and is the last winner |
| LuckyDraw.RunDraw | components/LuckyDrawPanel.tsx:23-56 | the same click and frames as a loop, on any panel and roster: the outcome is the one of `StartDraw`; a click that does not start leaves the panel unchanged; otherwise the panel ends idle showing the 40th sample, which heads the otherwise unchanged history and is the last winner |
| LuckyDraw.RunFrames | components/LuckyDrawPanel.tsx:35-55 | from frame 0 of a running draw, the frame loop ends idle after the 40 frames, showing the 40th sample, which is put in front of the history and becomes the last winner |
| LuckyDraw.DrawRecordsOneWinner | components/LuckyDrawPanel.tsx:44-49 | a completed draw adds one record at the front; its name belongs to the pool snapshot, and in no-repeat mode it had not won before |
| LuckyDraw.NoRepeatKeepsHistoryDistinct | components/LuckyDrawPanel.tsx:19-53 | in no-repeat mode, draws keep the history free of repeated names |
| LuckyDraw.ExhaustedPoolRefusesDraw | components/LuckyDrawPanel.tsx:19-27 | once every roster name has won in no-repeat mode, the pool is empty and a click changes nothing |
| LuckyDraw.RepeatModeAlwaysStarts | components/LuckyDrawPanel.tsx:19-30 | in repeat mode a click on an idle panel with a non-empty roster always starts a draw over the whole roster |
| LuckyDraw.ClearHistory | components/LuckyDrawPanel.tsx:58-64 | clearing empties the history, forgets the last winner and shows `???`; the phase and the mode are kept. The Clear button is shown only while the history is non-empty (LuckyDrawPanel.tsx:148); the function has no such guard, and on an empty history it leaves the history empty and the pool unchanged |
| LuckyDraw.ClearRestoresPool | components/LuckyDrawPanel.tsx:58-64 | after clearing, the no-repeat pool is the full roster again |
| LuckyDraw.Remount | App.tsx:128-136 | leaving the tab and coming back mounts a fresh panel: idle, showing `???`, with an empty history, no last winner and no-repeat mode |
| LuckyDraw.RemountOffersWholeRoster | components/LuckyDrawPanel.tsx:9-21 | a freshly mounted panel offers the whole roster, earlier winners included, and a click starts a draw over the whole roster unless the roster is empty |
| LuckyDraw.SetAllowRepeat | components/LuckyDrawPanel.tsx:79-85 | the mode switch changes only the mode; a running draw, the shown name, the last winner and the history are untouched |
| Roster.NameCounts | components/SourcePanel.tsx:22-28 | the map's keys are exactly the roster's names, and each value is the number of entries with that name |
| Roster.CountDuplicates | components/SourcePanel.tsx:30-32 | the count computed through the map equals the number of entries whose name occurs more than once |
| Roster.NoDuplicatesIffDistinct | components/SourcePanel.tsx:30-32 | the duplicate count is 0 exactly when all names are distinct |
| Roster.DuplicateCountAsWritten | components/SourcePanel.tsx:22-31 | the code's count, with names inherited from `Object.prototype` never flagged, is at most the intended count |
| Roster.InheritedNameHidesDuplicates | components/SourcePanel.tsx:22-31 | two entries named `constructor` share a name, yet the code counts no duplicate |
| Roster.AsWrittenAgreesOffInherited | components/SourcePanel.tsx:22-31 | on a roster without inherited names the code's count is the intended one |
| Roster.DuplicateCountNeverOne | components/SourcePanel.tsx:30-32 | the duplicate count is never 1 |
| Roster.RemoveDuplicates | components/SourcePanel.tsx:52-60 | the seen-set pass keeps exactly the first entry of each name: the result is an order-preserving subsequence with distinct names and the same set of names |
| Roster.FirstOfEachNameKeepsFirst | components/SourcePanel.tsx:54-58 | the first entry with each name is kept |
| Roster.FirstOfEachNameOnlyFirst | components/SourcePanel.tsx:54-58 | every kept entry is the first entry with its name |
| Roster.FirstOfEachNameKeepsNames | components/SourcePanel.tsx:52-59 | no name is lost |
| Roster.FirstOfEachNameDistinct | components/SourcePanel.tsx:52-59 | no name is kept twice |
| Roster.FirstOfEachNameIsSubsequence | components/SourcePanel.tsx:54-58 | the kept entries appear in roster order |
| Roster.FirstOfEachNameOfDistinct | components/SourcePanel.tsx:52-59 | a roster with distinct names is unchanged |
| Roster.FirstOfEachNameIdempotent | components/SourcePanel.tsx:52-59 | removing duplicates twice equals once, and the result has duplicate count 0 |
| Text.Trim | components/SourcePanel.tsx:35 | trimming leaves an infix with only whitespace removed at both ends and no whitespace at either end |
| Text.SplitRuns | components/SourcePanel.tsx:35 | splitting on separator runs gives at least one piece; no piece contains a separator and only the first and last can be empty |
| Text.Weave | components/SourcePanel.tsx:35 | text made of parts with a possibly different separator run in each gap (a join with mixed separators) begins with its first part |
| Text.SplitRunsRebuilds | components/SourcePanel.tsx:35 | the pieces woven back together with the separator runs that were cut out give the input again, each gap a non-empty separator run |
| Text.SplitRunsWeave | components/SourcePanel.tsx:35 | conversely, any weave of separator-free parts, with no empty inner part and a non-empty separator run in each gap, splits back into exactly those parts; together with the previous row this fixes where every cut falls |
| Text.SplitRunsKeepsContent | components/SourcePanel.tsx:35 | the pieces put back together are the input with every separator removed |
| Text.SplitRunsJoin | components/SourcePanel.tsx:35 | the case of one separator in every gap: splitting undoes a join of separator-free parts, no inner one empty, whose separator is a non-empty run of separator characters |
| Roster.PastedNames | components/SourcePanel.tsx:35 | every pasted name is non-empty, separator-free and has no whitespace at either end |
| Roster.PastedNamesRoundTrip | components/SourcePanel.tsx:35 | pasting clean names with any run of line feeds, commas and semicolons in each gap, mixed in any way, reads back exactly those names in order |
| Roster.PastedMixedSeparators | components/SourcePanel.tsx:35 | `a,b;;c` pastes as the names `a`, `b`, `c` |
| Roster.BlankTextAddsNothing | components/SourcePanel.tsx:35 | text made only of whitespace and separators adds nobody |
| Roster.AddNames | components/SourcePanel.tsx:34-42 | the old roster is an unchanged prefix, and the appended entries carry the pasted names in order with consecutive fresh ids |
| Roster.Enroll | components/SourcePanel.tsx:36-39 | one new entry per name, in order, carrying that name and consecutive fresh ids |
| Roster.EnrollKeepsIdsDistinct | components/SourcePanel.tsx:36-40 | appending entries with fresh ids keeps all ids distinct |
| Roster.StripQuotes | components/SourcePanel.tsx:72 | a quote at the start is removed, and a quote at the end is removed unless it is that same first character; nothing else is removed, so the result is the rest of the line in place |
| Roster.StripQuotesOfLeading | components/SourcePanel.tsx:72 | a line with a quote only at its start loses just that quote |
| Roster.StripQuotesOfTrailing | components/SourcePanel.tsx:72 | a line with a quote only at its end loses just that quote |
| Roster.StripQuotesOfQuoted | components/SourcePanel.tsx:72 | a name between quotes comes back without them, whatever it contains |
| Roster.StripQuotesOfUnquoted | components/SourcePanel.tsx:72 | a line without quotes at its ends is unchanged |
| Roster.ImportedNames | components/SourcePanel.tsx:69-72 | no imported name contains a line break |
| Roster.ImportRoundTrip | components/SourcePanel.tsx:69-73 | a file of clean lines imports those lines with their surrounding quotes removed, whether each line ends in `\n`, `\r\n`, `\r` or a run of these, mixed in any way |
| Roster.ImportQuotedNames | components/SourcePanel.tsx:69-73 | a file with one quoted name per line imports exactly those names, including empty ones, with `\n`, `\r\n` and `\r` line endings alike, even mixed |
| Roster.LoneQuoteImportsEmptyName | components/SourcePanel.tsx:69-72 | a line holding only `"` becomes a participant with an empty name |
| Roster.ImportFile | components/SourcePanel.tsx:67-75 | the old roster is an unchanged prefix, and the appended entries carry the imported names in order with consecutive fresh ids |
| Roster.RemoveParticipant | components/SourcePanel.tsx:80-82 | every entry with the id goes, every other entry stays as often as it was there, and the order is kept |
| Roster.RemoveParticipantCount | components/SourcePanel.tsx:80-82 | with distinct ids, removing an id on the roster removes exactly one entry, and removing an absent id changes nothing |
| Roster.RemoveParticipantKeepsIdsDistinct | components/SourcePanel.tsx:80-82 | removal keeps ids distinct |

## Left out

- Rendering and styling: no logic.
- Tab switching in `App.tsx`: only the active tab's panel is mounted, so leaving a tab unmounts its panel and resets its state. For the draw panel this is `LuckyDraw.Remount`: the history, mode and last winner are lost, so across tab switches the history does not only grow. For the grouping panel the groups go back to none and the size to 2; the model has no separate state for it, since `PerformGrouping` takes the current groups and the size as arguments. A pending draw timer keeps running against the unmounted panel; React ignores its updates, and the model does not follow it.
- Persistence of the roster in `localStorage`: I/O.
- `FileReader`, the file input and resetting it: I/O. Only the parsing of the file's text is modelled.
- The clipboard API, the `copied` flag, `Blob`, the download link and the date in the file name: I/O. Only the exported text is modelled.
- `window.alert` and `window.confirm`: user interaction. Confirming a clear is the caller choosing to apply `ClearHistory`; an alert is the `NoneLeft` or `InsufficientParticipants` outcome.
- `setTimeout` and the `speed *= 1.05` slowdown: timing and floating point. Only the frame count matters.
- The team-name service client: a foreign network call. It is replaced by the `NameSource` value, which can be any list of names or an error.
- The `isGenerating` flag and the disabled state of the grouping button: they only guard concurrent clicks during the name call.
- `handleLoadDummy`: it enrolls a fixed list of demo names as `Enroll` does, without splitting or trimming them; the list is a constant.
- Grouping.PerformGrouping: the group size is a natural number of at least 1 (`k >= 1` is a precondition). The panel reads the size with `Number(...)`, and the input's `min` does not stop a typed value, so sizes that are fractional, zero, negative or not a number are not modelled. A fractional size breaks "none exceeds `k`": for 5 people and size 2.5, `Math.ceil` gives 2 groups and `slice` truncates its bounds, giving sizes 2 and 3. Size 0 makes `numGroups` infinite.
- Text.Trim: removes a fixed set of whitespace characters (ASCII blanks and line terminators, no-break space, ideographic space, byte-order mark), not every Unicode space that JavaScript's `trim` removes.
- Shuffle.ShuffleArray: the uniform distribution of `Math.random` is not modelled. `ShuffleReachesEveryPermutation` and `ShuffleInjective` state the corresponding fact on draw sequences instead.
- Grouping.ResolveNames: for a returned list, nothing is assumed about its length or contents; a list longer than the number of groups has its extra names ignored.
- Roster.NameCounts: a Dafny map stands for the object literal `counts`. For a name that is a key of `Object.prototype` (`constructor`, `toString`, `__proto__`, …), the code stores a string built from the inherited member, or for `__proto__` stores nothing, so `nameCounts[name] > 1` is false. `NameCounts`, `CountDuplicates` and `NoDuplicatesIffDistinct` state the intended counts; `DuplicateCountAsWritten` is the code's count, and the Findings table below has the details.
- Roster.AddNames: ids come from a counter, so the (unlikely) collision of two random base-36 ids is not modelled.

## Findings

| source | as written | input that shows it | evidently intended | confidence | as-written member | corrected member |
|---|---|---|---|---|---|---|
| components/SourcePanel.tsx:22-31 | `counts` is a plain object, so `counts[p.name] \|\| 0` reads the member inherited from `Object.prototype` for a name like `constructor`. The stored value is a string, or nothing is stored for `__proto__`, and `nameCounts[p.name] > 1` is false | a roster with two entries named `constructor` | both entries are marked as duplicates, the badge reads 2 and the remove-duplicates button appears | medium; not executed | Roster.InheritedNameHidesDuplicates | Roster.CountDuplicates |
