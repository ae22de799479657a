# HBU evaluation helper: the timed submission orchestrator in Dafny

This project models the logic of the userscript `evaluation.js`. The script
completes the course-evaluation forms of the Hebei University teaching portal.
Its timers and DOM reads become discrete steps with explicit inputs:

- **Countdown** (`countdown.dfy`): the detail page's one-second interval over
  `timeLeft`. It starts at 63 seconds. The tick that sees 30 seconds left
  requests the midway correction. The first tick that sees 0 clears the
  interval and starts the submit loop.
- **SubmitLoop** (`submit_loop.dfy`): the retry loop. A missing submit button
  is an error with no submit. Otherwise the loop submits at once and then checks
  once every 5 seconds. A check fails when the URL still contains
  `evaluationPage` and the status overlay still exists. Ten failures make the
  loop give up. Any other observation ends it as a success. The state keeps the
  number of submit clicks and checks, so that bounds can be stated.
- **Midway** (`midway.dfy`): the correction as four successive page values.
  The last editable input goes to `""`, then to `"10"`. The first text area
  loses its last character, then becomes its original text, with `"。"`
  appended when the text did not already end with one. Nothing happens while
  the page is hidden.
- **Fill** (`fill.dfy`): the fill loop. Every input that is not read-only,
  disabled or hidden by its inline style ends up holding `"10"`. Every text area
  gets a canned comment picked by a `Math.random()` draw.
- **ListPage** (`list_page.dfy`): the search of the evaluation table for the
  first row whose trimmed last cell reads `"否"` and whose first cell has a
  button.
- **Entry** (`entry.dfy`): the routing on the URL. The list handler runs
  exactly when the URL contains `evaluation/index`.
- **Strings**, **Form**, **Config**, **Optional**: JavaScript's `indexOf`,
  `endsWith`, `slice(0, -1)` and `trim`; the form's data; the script's
  constants; an option type.
- **Scenarios** (`scenarios.dfy`): with the configured constants, the
  countdown's 63-second schedule, the submit loop's two extreme outcomes
  (success at the first check, ten failed checks), and the check's verdict on
  a detail-page URL.

Timers, randomness and the browser are parameters. A check's observation is a
boolean verdict (or an `Observation` of URL and overlay presence). A comment
choice is a real draw in `[0, 1)`. Visibility is the `hidden` argument of the
correction.

Three behaviours of the code are worth stating plainly:

- The correction is not value-neutral. It appends `"。"` to a first comment
  that lacks one. It also rewrites the last input that is neither read-only
  nor disabled, even one hidden by `display: none` that the fill never touched
  (`Midway.HiddenInputRewritten`). `Midway.ValueNeutralIff` gives the exact
  condition under which the page stays as it was.
- A table row with no `td` cell makes the status lookup on line 100 throw,
  which ends the scan. The model reports this as `RowError(i)`. A missing
  table body returns silently (`NoTable`).
- `retryCount` is at most 9 while the loop runs. The check that brings it to
  10 stops the loop.

## Model

| member | source | states |
|---|---|---|
| Countdown.Tick | evaluation.js:126-143 | a tick from a running state lowers the remaining-tick rank by one; the correction is requested exactly on the tick that sees 30; the submit loop is started exactly on the transition into the expired state; an expired countdown stays expired and silent |
| Countdown.Run | evaluation.js:126-143 | `k` interval firings emit exactly `k` actions |
| Countdown.RunExpired | evaluation.js:138-139 | once the interval is cleared, no further tick changes the state or emits anything |
| Countdown.RunSchedule | evaluation.js:122-143 | counting down from `n`, after `k <= n` ticks `timeLeft` is `n - k` (never negative), after more the countdown has expired, and tick `i` emits the correction at `n - 30`, the submit start at `n`, nothing otherwise |
| Countdown.CorrectionFiresOnce | evaluation.js:131-135 | from any dwell of at least 30 seconds, the correction is requested on exactly the tick that sees 30 seconds left, so it occurs once in any trace that reaches that tick and never otherwise |
| Countdown.SubmitStartsOnce | evaluation.js:138-142 | tick `n + 1` is the first to see 0: the countdown has expired exactly when more than `n` ticks ran, and the submit loop is started exactly once, on that tick |
| Scenarios.DwellSchedule | evaluation.js:16 | with the 63-second dwell, tick 34 requests the correction, tick 64 expires the countdown and starts the submit loop, and every other tick only counts down |
| SubmitLoop.StillOnPage | evaluation.js:226-229 | a check classifies the attempt as failed exactly when the URL contains `evaluationPage` and the overlay still exists |
| SubmitLoop.Start | evaluation.js:194-220 | without a submit button the loop ends in the error state having issued no submit; with one it issues exactly one submit and awaits its first check |
| SubmitLoop.Check | evaluation.js:223-245 | one check while attempting counts one more check; a success verdict ends the loop with no new submit; a failure gives up exactly when the retry count reaches 10, and otherwise moves to the next retry count with one more submit; a stopped loop is unchanged |
| SubmitLoop.CheckConsistent | evaluation.js:229-244 | a check keeps the counters consistent: while attempting with retry count `n`, `n + 1` submits and `n` checks; after giving up, 10 and 10; the no-button error state is neither entered nor left |
| SubmitLoop.Run | evaluation.js:232-243 | once the loop has stopped (the interval is cleared), later checks change nothing |
| SubmitLoop.RunConsistent | evaluation.js:204-245 | every sequence of checks keeps the counters consistent with the state, and never enters or leaves the no-button error state |
| SubmitLoop.Session | evaluation.js:194-246 | the loop never issues more than 10 submits or makes more than 10 checks; without a button it is the error state with none; with a button at least one submit happens |
| SubmitLoop.TerminatesFrom | evaluation.js:229-239 | after `n` failed checks, `10 - n` further checks always stop the loop |
| SubmitLoop.FailedWhen | evaluation.js:229-234 | when the remaining `10 - n` checks all fail, the loop gives up with exactly 10 submits and 10 checks |
| SubmitLoop.FailedOnlyWhen | evaluation.js:229-243 | the loop gives up only if every one of the remaining `10 - n` checks was made and failed |
| SubmitLoop.FailedIff | evaluation.js:229-234 | the loop gives up exactly when each of the remaining `10 - n` checks fails |
| SubmitLoop.SucceededAt | evaluation.js:229-243 | after `n` failed checks, when check `j` (counting from position `k` of the verdicts) is the first success, the loop ends in success after `n + (j - k) + 1` submits and checks |
| SubmitLoop.SucceededWhen | evaluation.js:240-243 | a success verdict within the allowance ends the loop in success |
| SubmitLoop.SucceededOnlyWhen | evaluation.js:229-243 | the loop ends in success only after a success verdict within the allowance |
| SubmitLoop.SucceededIff | evaluation.js:223-245 | success is reported exactly when some check within the allowance sees the page gone |
| SubmitLoop.SessionTerminates | evaluation.js:205-245 | with a button, 10 checks always bring the loop to a terminal state |
| SubmitLoop.SessionFailedIff | evaluation.js:204-234 | a session with a button gives up exactly when its first 10 checks all fail, and it has then issued exactly 10 submits |
| SubmitLoop.SessionSucceededIff | evaluation.js:204-243 | a session with a button succeeds exactly when one of its first 10 checks sees the page gone, and then it has issued one submit per check |
| SubmitLoop.AllChecksFail | evaluation.js:204-234 | when every check fails, exactly 10 submits and 10 checks happen and the loop gives up |
| SubmitLoop.FirstCheckSucceeds | evaluation.js:219-243 | when the first check sees the page gone, the loop succeeds after exactly one submit |
| SubmitLoop.Verdicts | evaluation.js:226-229 | each check's verdict is the heuristic applied to what that check observes |
| Scenarios.AcceptedAtFirstCheck | evaluation.js:240-243 | once the overlay is gone (the page navigated away), the first check reports success whatever the URL, after one submit |
| Scenarios.RejectedEveryTime | evaluation.js:229-234 | when every check still sees a detail-page URL and the overlay, ten submits happen and the loop gives up |
| Scenarios.DetailUrlStillOnPage | evaluation.js:227 | a detail-page URL with the overlay present is classified as a failed attempt |
| Strings.IndexOfFrom | evaluation.js:227 | the search from a start position returns the first occurrence at or after it, or -1 exactly when none exists |
| Strings.IndexOf | evaluation.js:250 | `indexOf` is not -1 exactly when the text contains the pattern, and then it is the first occurrence |
| Strings.EndsWithIff | evaluation.js:188 | `endsWith` holds exactly when the text is some text followed by the suffix |
| Strings.DropLast | evaluation.js:185 | `slice(0, -1)` removes exactly the last character and leaves the empty string empty |
| Strings.TrimStart | evaluation.js:100 | the suffix left after removing only JavaScript white space, starting with a non-space |
| Strings.TrimEnd | evaluation.js:100 | the prefix left after removing only JavaScript white space, ending with a non-space |
| Strings.Trim | evaluation.js:100 | the result is no longer than the text and neither starts nor ends with white space |
| Strings.TrimPads | evaluation.js:100 | every text is its trimmed form with only white space added on either side |
| Strings.TrimStartPadded | evaluation.js:100 | `trimStart` removes exactly a leading run of white space in front of a text that does not start with white space |
| Strings.TrimEndPadded | evaluation.js:100 | `trimEnd` removes exactly a trailing run of white space after a text that does not end with white space |
| Strings.TrimPadded | evaluation.js:100 | trimming any white-space padding off a text that neither starts nor ends with white space gives that text back |
| Strings.TrimIff | evaluation.js:100 | for such a text, `trim` yields it exactly from the texts that pad it with white space |
| Strings.TrimIdempotent | evaluation.js:100 | trimming a trimmed text changes nothing |
| Form.LastEditable | evaluation.js:170-172 | the position of the last input that is neither read-only nor disabled, or none exactly when no input is editable |
| Form.LastEditableIgnoresValues | evaluation.js:170-172 | changing input values never changes which input is the last editable one |
| Form.SetValue | evaluation.js:174-177 | writing a value changes that input's value only |
| Fill.CountFillable | evaluation.js:146 | the filtered list never holds more inputs than the page |
| Fill.CountFillableExtremes | evaluation.js:146-153 | the fill edits no input exactly when none is fillable, and every input exactly when all are |
| Fill.FillScores | evaluation.js:146-153 | every fillable input ends holding `"10"`, every other input is untouched, and one edit is made per fillable input |
| Fill.CommentIndex | evaluation.js:159 | a `Math.random()` draw always picks a valid comment index |
| Fill.FillComments | evaluation.js:157-163 | every text area ends holding one of the canned comments |
| Fill.CommentsEndWithFullStop | evaluation.js:18-24 | every canned comment ends with `"。"` |
| Fill.FillPage | evaluation.js:145-163 | after the fill completes, all fillable inputs hold `"10"`, all text areas hold canned comments, and the form's shape is unchanged |
| Midway.Restore | evaluation.js:188 | the restored comment always ends with `"。"`, extends the original by at most one character, and equals it exactly when the original already ended with `"。"` |
| Midway.WriteLastInput | evaluation.js:170-179 | a write to the score field sets the value of the last editable input, if any, and changes nothing else: every other input and all text areas stay as they were |
| Midway.WriteFirstTextarea | evaluation.js:181-190 | a write to the comment field sets the first text area, if any, and changes nothing else: the inputs, the number of text areas and every other text area stay as they were |
| Midway.Correct | evaluation.js:167-191 | hidden: nothing changes; otherwise the last editable input passes through `""` and ends at `"10"`, every other input is untouched, the first text area passes through its text minus the last character and ends at the restored text, and other text areas are untouched; each intermediate page differs from the one before only in the field just written |
| Midway.CorrectIdempotent | evaluation.js:170-188 | a second correction leaves the corrected page unchanged |
| Midway.ValueNeutralIff | evaluation.js:170-188 | the correction leaves the page unchanged exactly when the last editable input already holds `"10"` and the first text area already ends with `"。"` |
| Midway.NeutralAfterFill | evaluation.js:146-191 | after a completed fill the correction is value-neutral, provided the input it rewrites is one the fill edited |
| Midway.HiddenInputRewritten | evaluation.js:146-172 | an editable input hidden by its inline style is skipped by the fill but rewritten by the correction, so a filled page can still change |
| Midway.FullStopAppended | evaluation.js:188 | every comment without a final `"。"` becomes that comment with exactly one `"。"` appended |
| ListPage.PendingIff | evaluation.js:100-103 | a row qualifies exactly when it has cells, its first cell has a button, and its last cell's text is `"否"` with only white space around it |
| ListPage.SelectRow | evaluation.js:91-114 | no table body gives no action; otherwise the entered row is the first pending one (trimmed last cell `"否"` and a button in the first cell) and no earlier row qualifies; "all done" exactly when no row qualifies; a row without cells before any pending row stops the scan there |
| ListPage.PaddedStatusIsPending | evaluation.js:100-103 | any white space around `"否"` is trimmed away, so the status still reads "not evaluated" |
| Entry.Route | evaluation.js:249-254 | the list handler runs exactly when the URL contains `evaluation/index`; every other page runs the detail handler |

## Left out

- DOM access and events (`triggerEvents`, `setInputValue`'s native value setter, `focus`) are browser I/O. Only the field values are modelled.
- `showStatus` (overlay rendering, colours, blinking), the `visibilitychange` title change and `console.log` are UI only. The overlay appears only as the "overlay present" input of a check.
- Real timers (`setInterval`, `setTimeout`, `sleep`) and their interleaving are concurrency. Ticks and checks are discrete steps. The 5-second spacing of the checks is not modelled; a check is one step. The correction's four writes are a sequence of page values with no fill step between them.
- The fill's pacing (`randomTime(500, 1500)` or 2000 ms when hidden, then 1000 ms) is left out. It decides when writes happen, not what they write.
- The 2000 ms delay before the list scan, the 1000 ms delay before clicking the chosen row's button, and the final `alert` are timing or UI only.
- The `window.confirm`/`window.alert` overrides and the click on a `.layui-layer-btn0` pop-up are global side effects on a foreign page.
- Strings are sequences of Unicode scalar values. JavaScript's `slice(0, -1)` works on UTF-16 code units, so it differs only for a text ending in a character outside the Basic Multilingual Plane. The canned comments and `"。"` are all inside it.
- `innerText` is taken as the cell's given text. How a browser renders it is not modelled.
- `Math.random()` is a real draw in `[0, 1)`. Floating-point rounding of `draw * 5` is not modelled.
