# Section reservation: availability search, subject queue and scheduler

This project models the core of `app.js`, a browser-automation script. The
script signs a student in to the enrollment site and then keeps polling the
section table. For each subject still wanted it reserves the first open section
it can click, and it removes a subject from its quarter's queue once that
subject is selected.

The model has seven modules:

- `Wrappers` holds `Option`. It stands for JavaScript's `null`, `undefined` and `NaN`.
- `Text` holds the string primitives the search uses:
  - ASCII `toLowerCase`;
  - `includes`;
  - `parseInt(s, 10)`, with the `|| 0` default in `ParseCount`.
- `Inspector` is the pure function run inside the page through `page.evaluate`. It does three things:
  - it builds the search keys `name - section`;
  - it keeps the table rows whose lower-cased text contains one of the keys;
  - it maps each kept row to a section record. The record holds the counts, the label (or `Sección Desconocida`), and the checkmark selector when the section is open and its checkbox is enabled.
- `Browser` models the page as a `Page` object built from a fixed `Script`. The script says whether the n-th table wait succeeds, which rows the n-th evaluation sees (or that it throws), and whether the n-th click attempt succeeds. The page keeps this as its `View`, where the n-th evaluation is the `Inspector` search over those rows, and it advances a cursor over the answers.
- `Availability` models `checkAvailability`:
  - the specification functions `TryRows`, `PassFrom` and `Pass`, with lemmas about them;
  - the imperative index loop over a `SubjectList` object, with the in-place `splice(i, 1); i--; break`. It is proved to compute exactly `Pass` and to leave the list as `Remaining`.
- `RunLoop` models the `while (true)` loop of `selectionProcess`, run for a bounded number of rounds. Each quarter owns its own subject array, as `askForSelection` pushes a fresh object per quarter. The specification functions are on the arrays' contents: `SweepFrom` (one sweep over the quarters), `Rounds`, `RunAsWritten` and `RunFixed` (the loop with the exit its completion message announces). The imperative loops over the `userData` object are proved to compute exactly these.
- `Scheduler` models the time arithmetic of `askForHour`. Instants are integer milliseconds.

Three behaviours of the code are modelled as they are:

- The counts are not forced to be non-negative: "-3" is read as -3.
- A time equal to now is not advanced. Only a strictly earlier time is moved one minute later.
- The run loop does not end when every subject is selected (see Findings).

## Model

| member | source | states |
|---|---|---|
| Text.Lower | app.js:34 | Lower-casing keeps the length and maps every character through ASCII lower-casing. |
| Text.LowerIdempotent | app.js:34 | Lower-casing twice is the same as lower-casing once. |
| Text.Includes | app.js:34 | `includes`: the empty needle is always included, and an included needle is no longer than the text. Both directions of its meaning are in IncludesIffOccurs. |
| Text.IncludesIffOccurs | app.js:34 | `includes` holds exactly when the needle occurs at some position of the haystack (both directions). |
| Text.TrimStart | app.js:40-41 | `parseInt` skips a prefix made only of white space and stops at the first non-space character. |
| Text.LeadingDigits | app.js:40-41 | The digits read are the longest all-digit prefix: the character after them is not a digit. |
| Text.ParseInt | app.js:40-41 | `parseInt(s, 10)`. No ensures of its own; described by TrimStart, LeadingDigits, ParseIntOfNumeral, ParseIntOfNegativeNumeral, ParseIntOfDecimal and NoDigitsIsNaN. |
| Text.ParseCount | app.js:40-41 | `parseInt(...) \|\| 0`: when parseInt reads a number the count is that number, and a non-zero count is always what parseInt read. A missing cell and `NaN` give 0. |
| Text.ParseIntOfNumeral | app.js:40-41 | A run of digits after white space and before non-digit text parses to the value of the digits. |
| Text.ParseIntOfDecimal | app.js:40-41 | Parsing reads back any natural number's decimal numeral, after any white space and before any non-digit text. The count derived from that text is the number. |
| Text.ParseIntOfNegativeNumeral | app.js:40-41 | A minus sign in front of such a run parses to the negated value of the digits. |
| Text.ParseIntOfNegativeDecimal | app.js:40-41 | A leading minus sign yields the negated number. The code never rejects negative counts. |
| Text.NoDigitsIsNaN | app.js:40-41 | Text without a digit parses to NaN, so its count is 0. |
| Inspector.SearchStrings | app.js:23-25 | There is one key per accepted section, in the section order. Key i is `name - section_i`. |
| Inspector.AnyKeyIn | app.js:32-36 | `searchStrings.some(...)`. No ensures of its own; described by AnyKeyInSpec. |
| Inspector.AnyKeyInSpec | app.js:32-36 | A row matches exactly when its lower-cased text includes some lower-cased key. |
| Inspector.Filter | app.js:32-36 | `filter` keeps at most as many rows as it is given. Which rows, and in what order, is in FilterInOrder and FoundRowsInOrder. |
| Inspector.FilterInOrder | app.js:32-36 | `Array.prototype.filter` keeps exactly the rows the test accepts, in their order: the result is indexed by a strictly increasing list of positions, and a position is in that list iff its row passes. |
| Inspector.FoundRowsInOrder | app.js:28-36 | The kept rows are exactly the matching rows, in document order, each kept once. |
| Inspector.ToSectionData | app.js:39-55 | The counts are the parsed counts, with 0 for a missing cell or NaN. The name is the non-empty label, else `Sección Desconocida`. A selector is present iff enrolled < capacity and the checkbox exists and is enabled; the selector is `#id + .checkmark`. |
| Inspector.MapToSectionData | app.js:39-57 | `map` gives one record per row. That record j comes from row j is in MapToSectionDataAt. |
| Inspector.MapToSectionDataAt | app.js:39-56 | The map keeps the length, and record j comes from row j. |
| Inspector.Inspect | app.js:19-57 | The search returns at most one record per table row. Which rows are the source of the records is in InspectSpec. |
| Inspector.MatchesIffMentions | app.js:23-36 | Matching the generated keys is the same as the row text mentioning `name - sec` for some accepted section. |
| Inspector.InspectSpec | app.js:19-57 | The evaluation returns one record per row mentioning the subject, in document order, and no record for any other row. |
| Inspector.MissingCapacityIsFull | app.js:41-45 | A row without a capacity cell, and with a non-negative count, is never offered for a click. |
| Browser.Page.WaitForTable | app.js:11 | The result is the page's view's answer to the current table wait, and only the wait cursor advances. |
| Browser.Page.Evaluate | app.js:19-57 | The result is the page's view's answer to the current evaluation of the subject: see ViewEvaluates. Only the evaluation cursor advances. |
| Browser.Page.Click | app.js:74-75 | A null selector fails without reaching the page. Otherwise the result is the page's view's answer to the current click, and only the click cursor advances. |
| Browser.ViewEvaluates | app.js:19-57 | An evaluation on a page built from a script fails where the script's evaluation throws, and otherwise is the row search over the rows the script shows for that call. |
| Availability.SubjectStep | app.js:15-63 | The report of a subject is about that subject. |
| Availability.PassFrom | app.js:14-88 | At most one report per subject. A start-to-finish pass reports on every subject. |
| Availability.Pass | app.js:9-92 | The same as PassFrom. In addition, a table that never appears aborts the pass with no report. |
| Availability.TryRows | app.js:67-87 | The row loop of one subject. No ensures of its own; described by TryRowsWellFormed, TryRowsFollowsClicks and TryRowsClicks, and proved equal to the loop by TrySections. |
| Availability.TryRowsWellFormed | app.js:67-87 | The rows are looked at in order. A row is reported full iff enrolled >= capacity, so full rows are never clicked. A failed click goes on to the next row. A successful click happens only on a row with a selector and ends the walk. Without a success every row is looked at. At most one click answer is consumed per row. |
| Availability.TryRowsFollowsClicks | app.js:67-82 | The labels follow the page's click answers. An open row is labelled Clicked exactly when the click answer it uses succeeds, and that answer comes right after those used by the earlier open rows with a selector. The walk uses one answer per such row, so a full row or a row without a selector uses none. |
| Availability.TryRowsClicks | app.js:67-82 | The walk moves the click cursor by exactly the click attempts its labels show: one per open row tried with a selector. |
| Availability.AtMostOneSelection | app.js:76-79 | At most one section is selected per subject, and it is the last row looked at. |
| Availability.PassReports | app.js:14-57 | Report k is about subject k. It holds what the k-th evaluation returned for that subject, and it is well formed. |
| Availability.PassClicks | app.js:14-82 | The labels of the k-th report are the row walk of its rows, started at the click answer the earlier subjects of the pass left the page at. With TryRowsFollowsClicks, a subject is removed only after a successful click answer at that position. |
| Availability.RemovesExactlySelected | app.js:77-78 | The original list is, as a multiset, what remains plus the subjects selected. The lengths add up the same way. |
| Availability.RemainingInOrder | app.js:77-78 | What remains is a subsequence of the original list: the removals never reorder it. |
| Availability.PassKeepsOrder | app.js:77-78 | After a pass, the list is a subsequence of the list before it. |
| Availability.PassRemovesExactlySelected | app.js:77-78 | A pass removes exactly the selected subjects. A pass that was not aborted leaves exactly the unselected subjects. |
| Availability.KeptAndSelected | app.js:77-78 | Every examined subject is either kept or selected: as multisets, the examined subjects are the kept ones plus the selected ones. |
| Availability.KeptInOrder | app.js:77-78 | The kept subjects are a subsequence of the examined subjects. |
| Availability.TrySections | app.js:67-87 | The row loop with its `break` computes exactly TryRows, consumes exactly TryRows' click answers, and reports whether a section was selected. |
| Availability.CheckSubject | app.js:15-87 | The loop body computes exactly SubjectStep, including the "no sections found" case and the throwing evaluation. |
| Availability.PassFromStops | app.js:19-57 | A throwing evaluation of the k-th subject ends the pass there, with no further report. |
| Availability.PassFromGoesOn | app.js:14-88 | Otherwise the pass records that subject's report and goes on with the next subject from where its step left the page. |
| Availability.ExamineAt | app.js:15-79 | One iteration at live index i examines the subject there. When a click succeeded for it, the subject is spliced out of the list, so the index stays on the next subject. When the evaluation throws, the pass ends with the reports so far. |
| Availability.CheckAvailability | app.js:9-92 | The reports, the abort flag and the page cursor are exactly those of Pass over the list before the call. The list afterwards is Remaining of it. |
| RunLoop.SweepFrom | app.js:146-153 | One sweep keeps one list per quarter. What each list becomes is in Sweep and SweepKeepsOrder. |
| RunLoop.Sweep | app.js:146-153 | One sweep runs the availability pass on each quarter's list in order, each pass starting where the previous one left the page. Each list becomes exactly what remains of it after its pass (SweepFrom). |
| RunLoop.SweepKeepsOrder | app.js:146-153 | A sweep keeps the quarters, and each list only loses subjects: it becomes a subsequence of what it was. |
| RunLoop.RoundsKeepOrder | app.js:142-154 | Over any number of sweeps the quarters stay and each list only loses subjects. |
| RunLoop.RunAsWritten | app.js:142-161 | The loop as written keeps one list per quarter and completes only if it had a round and there was no quarter. The converse is in AsWrittenExitsOnlyWithoutQuarters. |
| RunLoop.SelectionProcess | app.js:142-161 | The loop computes exactly RunAsWritten: whether it reached the exit branch, the lists it left and the page cursor. The selections array never changes. |
| RunLoop.RoundAsWritten | app.js:144-159 | One round of the loop as written: the exit branch when the selections array is empty, a sweep otherwise. |
| RunLoop.AsWrittenExitsOnlyWithoutQuarters | app.js:142-161 | The loop as written exits iff it gets a round and there is no quarter at all. While there is a quarter it just sweeps, for every number of rounds, even once every list is empty. |
| RunLoop.AllSelectedNeverCompletes | app.js:144 | A request whose only quarter has no subject left never completes, for any number of rounds. |
| RunLoop.RunFixed | app.js:142-161 | The corrected loop keeps one list per quarter and completes only after a round in which no quarter has a subject left. When it completes is in FixedExitsAtEmptyRound and FixedExitRound. |
| RunLoop.SelectionProcessFixed | app.js:142-161 | The corrected loop computes exactly RunFixed: it checks at the start of every round whether some quarter has a subject left, and exits the first time none has. |
| RunLoop.RoundFixed | app.js:144-159 | One round of the corrected loop: the exit branch when no quarter has a subject left, a sweep otherwise. |
| RunLoop.FixedExitsAtEmptyRound | app.js:144-159 | If any round within the bound starts with no subject left in any quarter, the corrected loop exits. |
| RunLoop.FixedExitRound | app.js:144-159 | Conversely, when the corrected loop exits it is at the first round that starts with nothing pending. Every earlier round had a subject pending, and the loop leaves the lists as that round found them, all empty. |
| RunLoop.FixedKeepsOrder | app.js:142-154 | The corrected loop, too, keeps the quarters and only removes subjects from the lists. |
| RunLoop.AllSelectedCompletesFixed | app.js:144-159 | The same request as in AllSelectedNeverCompletes completes under the corrected loop. |
| RunLoop.OneSubjectSelected | app.js:142-161 | Take the smallest request a run can start from, one quarter with one subject, on a page whose first evaluation finds one open section and whose first click succeeds. The first sweep empties the list. The corrected loop then exits in round two, while the loop as written never exits. |
| Scheduler.AskForHour | app.js:166-180 | The input is accepted iff hour and minute are numbers within [0,23] and [0,59]. The delay is the target minus now. A time strictly past is moved exactly one minute later, never a whole day. The target lies between this day's midnight and the next midnight, both included. Otherwise the target is the literal time and the delay is non-negative. The delay is negative iff the time was more than a minute ago. |
| Scheduler.StaleTimeGivesNegativeDelay | app.js:176-180 | 08:00 asked at 08:02 is scheduled at 08:01 with a delay of -60000 ms. |
| Scheduler.PresentTimeNotAdvanced | app.js:176 | A time equal to now is not advanced, and its delay is 0. |
| Scheduler.LastMinuteMovesToMidnight | app.js:174-178 | 23:59 asked a millisecond after it is scheduled at the next midnight, with a delay of 59999 ms. |

## Left out

- The login, the lobby link, the quarter-tab wait and click, and `page.reload()` (app.js:94-140, 148-152) are browser I/O and are assumed to succeed. In the code an error from the quarter-tab `waitForSelector` or `click`, or from `page.reload()`, is outside every `try`: it rejects the promise of `selectionProcess` and ends the run instead of going on to the next round.
- The other page calls are not modelled as I/O either. The table wait, the evaluation and the click attempt are answers of a fixed `Script`: the DOM state and the timing of puppeteer are abstracted as which answer the n-th call gets.
- The console messages are not modelled as text. What they report is the `Report`/`RowEvent` data: no section found, full, selected, click failed.
- The interactive prompts (`askForSubjects`, `askForSelection`, the credential prompts, readline) are not part of this model. That includes the re-prompt at app.js:170, which calls `askForHour()` without its argument, so an accepted retry starts the selection with `userData` undefined.
- Scheduler.AskForHour: `new Date()` and local midnight are parameters. Daylight-saving transitions and the `setTimeout` firing itself are not modelled.
- Scheduler.AskForHour: `split(':').map(Number)` is not modelled. Its inputs are the hour and minute already converted, with None standing for NaN. Fractional values such as 7.5, which the range check lets through, are not modelled.
- The `Math.round` display of the remaining seconds is not modelled.
- Text.Lower: only ASCII letters are lower-cased. Unicode case mapping, such as `Ó` to `ó`, is not modelled.
- Text.ParseCount: numbers are unbounded integers. The precision loss of JavaScript numbers above 2^53 is not modelled.
- Text.IsSpace: covers the ASCII white space, U+00A0, U+FEFF, U+2028 and U+2029. The other Unicode space separators are not modelled.
- RunLoop.Sweep: the quarters must not share one subject array. The program never builds such a state, as each quarter gets a fresh array (app.js:218-223). Aliased arrays are not modelled.
- RunLoop.SelectionProcess: the endless `while (true)` is run for a given number of rounds.
- RunLoop.SelectionProcess: `completed` stands for the exit branch (`browser.close()`, `process.exit(0)`).
- A progress or termination guarantee for the run loop (every subject eventually selected) is not stated. It depends on the remote site's answers, which the model leaves free, and the loop as written does not end anyway.

## Findings

| source | as written | input that shows it | evidently intended | confidence | as-written member | corrected member |
|---|---|---|---|---|---|---|
| app.js:144 | The loop exits only when `userData.selections.length === 0`. Passes remove subjects from `selection.subjects` and never remove a quarter, so once a quarter exists the loop never exits. | One quarter with one subject whose first click succeeds: after round one its list is empty and the loop goes on sweeping (OneSubjectSelected). | Exit with the completion message once no quarter has a subject left. | not executed | RunLoop.AsWrittenExitsOnlyWithoutQuarters | RunLoop.FixedExitsAtEmptyRound |
