# Verified model of the editor, retention and log components

Dafny models of the parts of the system with the most state and arithmetic, each proved against what its code
and its documentation promise. One module per component:

- **Inline review** (`EditScripts`, `LineDiff`, `HunkPlacing`, `ReviewPlans`, `ReviewDecisions`, `ReviewSessions`,
  `DocumentText`, `TextReviews`): the line diff over an LCS table, the search that places its hunks in a file that has
  since changed, the buffer that holds old and new lines together, the decisions on it, the disk written through, the
  text layer under the lines, and whole reviews on that text.
- **Eval matching** (`BipartiteMatching`, `EvalMatch`): augmenting paths proved to find a maximum matching, and the
  four match modes.
- **Session retention** (`SessionRows`, `SessionRetention`, `RetentionHistory`, `RetentionRuns`): the two-phase
  removal, with any other writer acting at every await. `RetentionHistory` says what a run is by the history of its
  steps; `RetentionRuns` is the code, which keeps that history.
- **Mirroring** (`MirrorTree`): a filesystem with links and POSIX path resolution, and the copy of a file list into
  a folder whose contents cannot be trusted.
- **Text scanners** (`CsvPreview`, `Highlight`, `SecretScan`).
- **Link and logs** (`RunnerLinks`, `LinkHandover`, `ActivityLogs`, `AuditLogs`).

Loops, arrays and objects of the code are methods, arrays and classes here; each is proved equal to a function or
relation, and the promises are lemmas about those. `Options` holds the option type, `Selections` what it
means to pick some entries of a list.

## Where the code and its promises differ

- The outward search of `placeHunks` stops at the length of the current file, so a hunk expected more than that far
  from where it fits is not found: `HunkPlacing.SearchIsNearest` gives the exact reach, `SearchCanMissAFit` a family
  of files.
- `splitLines` cannot tell an empty last line without a final break from the break itself
  (`DocumentText.SplitRoundTrip` is an equivalence). So a review of a file without a final break can go wrong:
  `TextReviews.OpeningKeepsFile` says exactly when the decided file already differs before anything is accepted, and
  `FaithfulIsSteady` exactly when every run of decisions on the text is the run on the lines. A change that puts an
  empty line at such an end leaves its break behind even when everything is rejected (`RejectLeavesBreak`).
- `settle` writes and then reloads the editor from the disk. When that last write fails after an earlier one went
  through, the decisions since are lost (`ReviewSession.Settle` states exactly when, `LastDecisionLost` is such a
  review).
- A dry run lists sessions with a status other than active or closed; a real run never removes them
  (`SessionRetention.AllRemovable`).
- A session screened because a newer one of its conversation would be resumed is closed although another writer has
  closed the newer one since: the guard of the close does not ask (`SessionRetention.CloseKeepsResumption` states
  exactly when, `CloseEndsConversation` is such a case).
- An exception while screening again is not caught: the run ends, and sessions it had closed and not yet reached stay
  closed (`RetentionHistory.AbortLeavesClosed`). A deletion that raises leaves its session closed too; it is listed in
  the errors (`EveryRowAccounted`).
- A pattern with a word boundary or a look-ahead can match at the edge of a chunk and not in the whole file:
  `SecretScan.FalseAlarmsAreCut` states exactly when, `SlackAtEdge` is such a file.
- A row limit of 0 in `parseCsv` gives one row (`CsvPreview.LimitedIsPrefix`); a last line that is one empty field and
  is not ended is not read (`ParsingUndoesPrinting` is an equivalence).
- The message handler of the link does not ask whether the link was stopped: `RunnerLinks.EndsWelcomed` states exactly
  when a stopped link ends welcomed, `WelcomedAfterStop` is such a run.

## Model

| member | source | states |
|---|---|---|
| EditScripts.LcsIsLongest | vscode-extension/src/inline-review.ts:68-77 | the measure the table is filled with bounds every common subsequence of two files |
| EditScripts.LcsIsAttained | vscode-extension/src/inline-review.ts:68-77 | and some common subsequence reaches it, so it is the length of a longest one |
| EditScripts.NoCheaperScript | vscode-extension/src/inline-review.ts:54-55 | an edit script keeps at most that many lines, so its deletes and inserts have a lower bound |
| LineDiff.BuildTable | vscode-extension/src/inline-review.ts:69-77 | the backwards loops over one flat array of 32-bit cells leave in every cell the measure of the two tails; no cell overflows below the cut-off |
| LineDiff.CellValue | vscode-extension/src/inline-review.ts:75 | one cell, from its right, lower and diagonal neighbours, is the measure of its two tails |
| LineDiff.WalkTable | vscode-extension/src/inline-review.ts:78-99 | the loop over i, j and the open hunk yields the runs of change of the walk the table guides |
| LineDiff.WalkIsOptimal | vscode-extension/src/inline-review.ts:87-97 | the greedy walk spells an edit script from one middle to the other that keeps as many lines as any can |
| LineDiff.GroupDescribes | vscode-extension/src/inline-review.ts:78-98 | collecting runs of change gives non-empty hunks, in order, with a common line between any two, that say exactly how the middles differ |
| LineDiff.LcsOfMiddle | vscode-extension/src/inline-review.ts:58-63 | cutting off shared ends keeps the measure: the longest common subsequence of the whole files is that of the middles plus the ends |
| LineDiff.TrimIsMost | vscode-extension/src/inline-review.ts:58-63 | no shared start and end of two files leave smaller middles than the trimmed ones, so whatever ends are shared, the middles are at most what lies between them |
| LineDiff.LineHunks | vscode-extension/src/inline-review.ts:55-100 | for any two files, trimming, table and walk together give the hunks of the specification |
| LineDiff.DiffDescribes | vscode-extension/src/inline-review.ts:55-100 | for every pair of files, above and below the cut-off, the hunks are non-empty, ascending, apart by at least a common line, and between them the files agree |
| LineDiff.DiffRoundTrip | vscode-extension/src/inline-review.ts:55-100 | replacing old lines by new turns the old file into the new one; the reversed hunks turn it back |
| LineDiff.DiffIsMinimal | vscode-extension/src/inline-review.ts:55-100 | below the cut-off the lines kept number exactly a longest common subsequence of the whole files, and no edit script deletes plus inserts fewer |
| LineDiff.DiffIsMinimalWithin | vscode-extension/src/inline-review.ts:51-66 | the same said without the trimming: when what lies between some shared start and some shared end spans at most 4,000,000 pairs of lines, the hunks keep a longest common subsequence and no edit script costs less |
| HunkPlacing.MatchesAt | vscode-extension/src/inline-review.ts:104-108 | the comparing loop decides whether the needle reads at a position, including positions outside the file |
| HunkPlacing.SearchNear | vscode-extension/src/inline-review.ts:136-147 | the outward loop finds what the outward search specifies |
| HunkPlacing.PlaceHunks | vscode-extension/src/inline-review.ts:117-155 | the loop over drift and floor places hunks as specified, with the shortcut for an untouched file |
| HunkPlacing.SearchIsNearest | vscode-extension/src/inline-review.ts:138-147 | a place found is a nearest fit, the earlier one on a tie; none found means none fits within reach, and every fit is within reach when the expected line is at most the length of the file |
| HunkPlacing.PlaceFromIsNearest | vscode-extension/src/inline-review.ts:121-152 | along all hunks the expected place is never above the floor and each placement is a nearest fit at or below it |
| HunkPlacing.PlacesAreAsRead | vscode-extension/src/inline-review.ts:102-155 | along all hunks, by the two files alone: a placed hunk reads there, its old lines and up to two lines of the base on either side as slices, at or below the end of the last placed one, and nearest to where the last displacement expects it, the earlier of two; an unplaced one reads nowhere at or below that floor within reach |
| HunkPlacing.PlacedApart | vscode-extension/src/inline-review.ts:110-116 | any two placed hunks keep their order and do not overlap |
| HunkPlacing.PlacesStand | vscode-extension/src/inline-review.ts:110-116 | hunks of a diff placed in any file come in order, never overlap, and stand on their own old lines |
| HunkPlacing.FarHunksAreMissed | vscode-extension/src/inline-review.ts:138-147 | a hunk expected beyond twice the length of the file is never found, wherever it fits |
| HunkPlacing.SearchCanMissAFit | vscode-extension/src/inline-review.ts:138-147 | a family of files where lines and context fit and the search still gives null: the limit of "null means it no longer fits" |
| ReviewPlans.PlanPropose | vscode-extension/src/inline-review.ts:161-191 | the plan is built as specified: inserts, blocks with their running offset, hunks already in the file, conflicts |
| ReviewPlans.PlacedInStands | vscode-extension/src/inline-review.ts:161-191 | what is shown inline is in order, does not overlap, and its red lines are lines of the file |
| ReviewPlans.SetAsideBackwards | vscode-extension/src/inline-review.ts:166-173 | unplaced hunks read backwards are hunks of the proposal, so placing them again is meaningful |
| ReviewPlans.PlanPartitions | vscode-extension/src/inline-review.ts:166-190 | every hunk of the diff is shown, already in, or set aside: exactly one of the three |
| ReviewPlans.PlanSorts | vscode-extension/src/inline-review.ts:161-191 | which hunk goes where, by the three files: shown, in order and at their places, are those that read in the current file as above; already in are those of the rest whose new lines, with the lines of the proposal around them, read there as above; conflicts are those whose new lines do not |
| ReviewPlans.AppliedReads | vscode-extension/src/inline-review.ts:166-175 | a hunk reported as already in has its new lines, with the up to two lines of the proposal on either side, at some place of the current file |
| ReviewPlans.NothingSetAside | vscode-extension/src/inline-review.ts:161-191 | an untouched file takes every hunk at its own place; a file that already reads like the proposal has no conflict |
| ReviewDecisions.ResolveIsRest | vscode-extension/src/inline-review.ts:207-223 | for blocks in order, resolving deletes the red or green lines of the block and moves up exactly the blocks below it |
| ReviewDecisions.DecideIsOne | vscode-extension/src/review-controller.ts:259-269 | a decision on the i-th open change decides the one change that is open with i open ones before it, and no other |
| ReviewDecisions.BlockShowsChange | vscode-extension/src/inline-review.ts:176-190 | the block of an open change has that change's old lines as its red lines in the buffer and its new lines as its green ones |
| ReviewDecisions.AcceptedAreThose | vscode-extension/src/inline-review.ts:193-204 | the changes accepted are exactly those decided so, in order |
| ReviewDecisions.DecisionStep | vscode-extension/src/inline-review.ts:206-223 | any decision on any open block takes buffer and blocks to precisely where the new decisions put them |
| ReviewDecisions.RunsDependOnDecisionsOnly | vscode-extension/src/inline-review.ts:206-223 | decisions commute: after any run, in any order, buffer and blocks depend only on what was decided for each change |
| ReviewDecisions.DecidedIsSplice | vscode-extension/src/inline-review.ts:206-223 | with nothing open the buffer is the file with exactly the accepted changes replaced |
| ReviewDecisions.DecidedLinesAreAccepted | vscode-extension/src/inline-review.ts:193-204 | at every moment the decided text is the file with exactly the changes accepted so far |
| ReviewSessions.PlanOpens | vscode-extension/src/review-controller.ts:213-238 | laying the plan in opens a review with every placed change open whose decided file is the file as it was |
| ReviewSessions.BulkDecisions | vscode-extension/src/review-controller.ts:324-330 | rejecting all gives back the file; accepting all in an untouched file gives the proposal |
| ReviewSessions.ReviewSession.constructor | vscode-extension/src/review-controller.ts:181-224 | a review starts with tallies at zero, or ends at once with nothing to decide |
| ReviewSessions.ReviewSession.FollowsDecides | vscode-extension/src/review-controller.ts:269-276 | buffer and open blocks always determine the decided file |
| ReviewSessions.ReviewSession.WriteDisk | vscode-extension/src/review-controller.ts:387-396 | a failed write leaves the disk and ends writing through; a write that succeeds is remembered |
| ReviewSessions.ReviewSession.Settle | vscode-extension/src/review-controller.ts:398-412 | settling leaves editor and disk equal to the decided file, except exactly when the last write fails after an earlier one went through: then the editor reloads an older text |
| ReviewSessions.ReviewSession.End | vscode-extension/src/review-controller.ts:361-383 | what is reported, and what is settled, for a finished and for an abandoned review |
| ReviewSessions.ReviewSession.Decide | vscode-extension/src/review-controller.ts:259-282 | every decision keeps the invariant: blocks and tallies follow the decisions and every change is accepted, rejected or open; a decision that leaves the review open makes one write exactly when the review is written through, after which the disk holds the decided file, or, if the write fails, nothing is written again; the last one settles on the decided file; an index out of range changes nothing |
| ReviewSessions.ReviewSession.TalliesAddUp | vscode-extension/src/review-controller.ts:269-276 | while a review is open, accepted, rejected and open changes are all the changes |
| ReviewSessions.LastDecisionLost | vscode-extension/src/review-controller.ts:398-412 | every review of two changes on a disk that takes the first write and not the second, both changes accepted: the report says two, and editor and disk hold one |
| ReviewSessions.ReviewSession.DecideEvery | vscode-extension/src/review-controller.ts:324-330 | Accept all and Reject all decide every open change and end on the decided file |
| ReviewSessions.ReviewSession.Withdraw | vscode-extension/src/review-controller.ts:284-307 | withdrawing removes what is open, counts nothing, and ends at the file as decided before |
| DocumentText.SplitRoundTrip | vscode-extension/src/inline-review.ts:45-49 | reading a text back gives its lines if and only if it is not an empty last line without a final break |
| DocumentText.SplitIsExact | vscode-extension/src/inline-review.ts:45-49 | of any text, with any mixture of line endings, the lines are cut off at its breaks and nowhere else, the longer break first, and only a last line that is not empty may go without |
| DocumentText.EndingShows | vscode-extension/src/inline-review.ts:46 | a uniform text with a line break shows its line ending |
| DocumentText.DecidedTextIsDecidedLines | vscode-extension/src/inline-review.ts:198-204 | deciding on the text is deciding on its lines, final break and line ending kept |
| DocumentText.LineRangeDeletesLines | vscode-extension/src/review-controller.ts:590-608 | deleting the range computed for some lines removes those lines and nothing else, in all four cases |
| DocumentText.InsertsLayInLines | vscode-extension/src/review-controller.ts:225-238 | the edits made from a plan lay its lines in, whether the text ends in a break or not |
| DocumentText.EmptyLineBehindBareEnd | vscode-extension/src/review-controller.ts:234-235 | the smallest case of where opening fails: one empty line proposed behind a file with no final break |
| TextReviews.DeletionFollows | vscode-extension/src/review-controller.ts:590-608 | for lines the text shows or hides: deleting the computed range leaves the text of the lines left, if and only if the lines are not the end of a file whose empty last line has no break; then one break stays |
| TextReviews.DecidedFollows | vscode-extension/src/inline-review.ts:198-204 | the decided text is the text of the decided lines if and only if no open change has an empty last line that the text takes for a break |
| TextReviews.PlanIsReviewable | vscode-extension/src/review-controller.ts:213-224 | what is shown of any proposal, in any file with one kind of line ending, meets the conditions of the results below |
| TextReviews.OpeningKeepsFile | vscode-extension/src/review-controller.ts:225-238 | opening a review leaves the decided text as the file was if and only if the file ends with a break or the last change does not put an empty line at its end; otherwise there is one break too many |
| TextReviews.StepFollows | vscode-extension/src/review-controller.ts:259-269 | one decision carried out on the text is the decision on the lines, unless it deletes the end of a text that hides its last line; then one break too many stays |
| TextReviews.FaithfulIsSteady | vscode-extension/src/review-controller.ts:225-307 | after every run of decisions the text, the blocks and the decided text are those of the file with exactly the accepted changes, if and only if the file ends with a break or no change can become its end with an empty last line, which is read off the file and the changes |
| TextReviews.UnsteadyRun | vscode-extension/src/review-controller.ts:259-269 | otherwise some run of decisions leaves a text or a decided text that is not that of its lines |
| TextReviews.RejectLeavesBreak | vscode-extension/src/review-controller.ts:259-269 | a last change that puts an empty line at the bare end of a file, rejected first, leaves a line break for the rest of the review, whatever is decided; with everything rejected the text is the file and that break |
| BipartiteMatching.Augment | app/scripts/eval/match.ts:211-221 | the recursive search ends because each call marks a fresh cell; found, it extends the matching by one expectation; failed, all it can reach is owned |
| BipartiteMatching.NoAssignmentBeats | app/scripts/eval/match.ts:203-208 | no one-to-one assignment meets more expectations than there are owners, given the blocked set the failed searches leave |
| BipartiteMatching.OwnedIsMostMet | app/scripts/eval/match.ts:203-208 | so the owners meet the most expectations any assignment can |
| BipartiteMatching.MaximumMatching | app/scripts/eval/match.ts:210-223 | the loop over expectations ends in a maximum matching for every fits relation |
| EvalMatch.GreedyIsComplete | app/scripts/eval/match.ts:192-201 | taking the first call each time meets every expectation exactly when a strictly increasing embedding exists |
| EvalMatch.EarliestIsUnique | app/scripts/eval/match.ts:192-201 | only one way of meeting expectations in order takes for each one the first call, behind the last one taken, that meets it, and passes it over exactly when no such call is left |
| EvalMatch.LooserModesPass | app/scripts/eval/match.ts:180-231 | what passes exact passes ordered_subset, then subset, then contains_any |
| EvalMatch.MostMetIsAll | app/scripts/eval/match.ts:231 | the maximum is everything exactly when some assignment meets everything |
| EvalMatch.MostMetIsSome | app/scripts/eval/match.ts:231 | the maximum is positive exactly when some call meets some expectation |
| EvalMatch.CountAssigned | app/scripts/eval/match.ts:203-227 | matched is the maximum, and missing lists the other expectations in order |
| EvalMatch.Violations | app/scripts/eval/match.ts:160-165 | empty exactly when no forbidden call was made |
| EvalMatch.ViolationsInOrder | app/scripts/eval/match.ts:160-165 | the violations are the observed calls at strictly increasing places, all the places where some entry forbids the call and no others |
| EvalMatch.MatchCalls | app/scripts/eval/match.ts:154-233 | a case passes exactly when its expectations are met in its mode and nothing forbidden was called; the score is matched over total; and in every mode matched and missing are said by the calls alone: under ordered_subset those met take, each, the first call behind the last one taken, and missing is the others in order; under exact the expectations not met at their own place; else the ones an assignment meeting the most leaves out |
| SessionRows.PickIsBest | app/src/session-retention.ts:138-149 | one pass keeping the newest so far finds a row nothing beats |
| SessionRows.ActivityMeans | app/src/session-retention.ts:137 | a session was last active when it last was or when it was created, whichever is later |
| SessionRows.ResumedIsNewest | app/src/session-retention.ts:138-144 | a message of a conversation resumes a session if and only if that is active in the conversation and every other such one was active earlier, or at the same time with a smaller id |
| SessionRows.ResumedByAgentIsLatest | app/src/session-retention.ts:145-148 | a message of an agent group resumes a session if and only if that is active, on no system thread, and created later than every other such one, or first in the table of those created with it |
| SessionRows.PickSurvives | app/src/session-retention.ts:133-153 | removing rows that are not picked leaves the pick |
| SessionRows.Continuations | app/src/session-retention.ts:133-153 | the two maps updated row by row yield exactly the sessions a new message would resume |
| SessionRows.ResumptionSurvives | app/src/session-retention.ts:132-153 | removing sessions no message resumes changes nothing for any conversation or agent group |
| RetentionHistory.WritesAreJustified | app/src/session-retention.ts:475-521 | in the history of a run every close follows a first screening that let the active session go; every deletion follows a screening, of the row as it was read closed, with a context read after this run's last close, that let it go; every reopening is of a session this run closed and that screening kept or whose deletion found it moved |
| RetentionHistory.OnlyIdleGo | app/src/session-retention.ts:235-248 | without the screening: every session closed or deleted in a run was active and created before the cutoff, unblocked and not resumed; in the world of that reading its container was stopped and not running, its chat not pinned, none of its files touched since the cutoff; and after the await its mailbox had nothing due, no task and nothing undelivered |
| RetentionHistory.ListedWasIdle | app/src/session-retention.ts:487-521 | every session a run lists as removed was deleted by it, on such a reading |
| RetentionHistory.HistoryTracks | app/src/session-retention.ts:421-523 | whatever others write at any await: a row they did not change is as at the start, but for those this run deleted and the active ones it holds closed |
| RetentionHistory.EveryRowAccounted | app/src/session-retention.ts:421-523 | after a run, a row nobody else wrote is gone and listed, or as it was; if the run completed and no deletion of it raised, as it was; if its deletion raised, closed |
| RetentionHistory.AbortLeavesClosed | app/src/session-retention.ts:487-491 | where a mailbox cannot be read once its session is closed, every run aborts and leaves closed a session that was active |
| RetentionRuns.Run.Screen | app/src/session-retention.ts:235-248 | the first rule that keeps a session, with the mailbox read in the world that one await leaves; what it means is stated by `MayGoMeans` and `KeptMeans` |
| RetentionRuns.Run.CloseSession | app/src/session-retention.ts:359-367 | closes a session only while it stands as it was screened |
| RetentionRuns.Run.ReopenSession | app/src/session-retention.ts:369-372 | reopens only a session that is still closed |
| RetentionRuns.Run.DeleteCentralRows | app/src/session-retention.ts:374-400 | one transaction: deletes only a row that is closed, stopped and last active as screened; a row that moved, or an error, changes nothing |
| RetentionRuns.Run.CloseEligible | app/src/session-retention.ts:476-484 | the first phase tries each eligible active session and reports as closed exactly those it holds closed |
| RetentionRuns.Run.SweepOne | app/src/session-retention.ts:489-523 | one session of the second phase: skipped, and then not held closed unless others changed its row; reopened; deleted; failed and left closed; or its screening raised |
| RetentionRuns.Run.SweepAll | app/src/session-retention.ts:487-523 | the second phase over all eligible sessions: the list is what was deleted, the errors what failed, and only a screening that raises ends it |
| RetentionRuns.Run.Prune | app/src/session-retention.ts:421-527 | whatever others write at any await: the history from the world found is genuine and every write in it justified; the list is exactly what was deleted; the errors are what raised; a completed run holds closed only what others changed or what failed; it aborts only when a second screening raises; left alone it removes what the dry run lists, and a session is listed if and only if it is idle in the world found and, unless the run is dry, active or closed; a dry run writes nothing |
| SessionRetention.MayGoMeans | app/src/session-retention.ts:235-248 | a screening lets a session go if and only if its last activity, its creation and the last change of its three files lie before the cutoff, its container is stopped and not running, it is not blocked, not resumed and not pinned, and its mailbox has nothing due, no task and nothing undelivered |
| SessionRetention.KeptMeans | app/src/session-retention.ts:235-248 | and each reason to keep one says which of these it fails |
| SessionRetention.IdleIsRemoved | app/src/session-retention.ts:421-527 | left alone, the dry run lists a session if and only if it is idle, and a run removes it if and only if it is also active or closed |
| SessionRetention.DeletionKeepsResumption | app/src/session-retention.ts:374-400 | no deletion, under any interleaving, changes which session a message resumes at that moment |
| SessionRetention.CloseKeepsResumption | app/src/session-retention.ts:359-367 | a close changes nothing about which session any message resumes if and only if it finds the row moved or the session is not one a message would resume at that moment |
| SessionRetention.CloseEndsConversation | app/src/session-retention.ts:476-491 | where it does: the newer session of a conversation is closed by another writer after the screening, the older is closed and may go, and a message resumes nothing |
| SessionRetention.ResumptionUnchanged | app/src/session-retention.ts:421-523 | an undisturbed run changes nothing about which session any message resumes |
| SessionRetention.RunAgain | app/src/session-retention.ts:421-523 | a second run with the same clock removes nothing, and lists nothing when every status is active or closed |
| SessionRetention.AllRemovable | app/src/session-retention.ts:478-491 | a run removes exactly the dry run's list if and only if every session on it is active or closed |
| MirrorTree.FileSystem.Walk | vscode-extension/src/git-changes.ts:421-429 | the first pass removes exactly the unwanted entries that are not folders, never through a link |
| MirrorTree.RealStays | vscode-extension/src/git-changes.ts:411-418 | a resolution that avoids the folder is the same after any change inside it |
| MirrorTree.Inside | vscode-extension/src/git-changes.ts:433-443 | once the folders above are real, a path below the folder leads where it says, whatever links lead to the folder itself |
| MirrorTree.FileSystem.MakeFolders | vscode-extension/src/git-changes.ts:434-441 | every component above a destination ends as a real folder, nothing else changes, and making one never fails |
| MirrorTree.SourcesApart | vscode-extension/src/git-changes.ts:420 | two listed files that both exist never lie one below the other |
| MirrorTree.FileSystem.CopyOne | vscode-extension/src/git-changes.ts:442-452 | the refusal is never raised; the destination ends as a file up to date with its source, with nothing below it and nothing else changed |
| MirrorTree.FileSystem.MirrorInto | vscode-extension/src/git-changes.ts:420-454 | for any contents of the folder: nothing outside it changes; it is done exactly when every listed file exists; then the entries that are not folders are exactly the list, each up to date; a mirrored folder is left as it is |
| MirrorTree.MirrorsCopies | vscode-extension/src/git-changes.ts:408-410 | when equal size and time mean equal bytes, every mirrored file has its source's bytes |
| CsvPreview.ParseCsv | ui/src/features/attachment-preview.ts:404-449 | the loop over characters computes the specified parse, limit and byte order mark included |
| CsvPreview.LimitedIsPrefix | ui/src/features/attachment-preview.ts:429-433 | a limit of k gives the first k rows of the whole parse; a limit of 0 acts as 1 |
| CsvPreview.ParsingUndoesPrinting | ui/src/features/attachment-preview.ts:399-403 | for rows printed as section 2 of RFC 4180 lays out, any mix of quoted and plain fields and of LF, CRLF and lone CR, with or without a mark: parsing gives the rows back if and only if the last line is ended or is more than one empty field |
| Highlight.StringEnd | ui/src/features/attachment-preview.ts:242-256 | the scan for a string's end, which always ends |
| Highlight.EndingIsFirst | ui/src/features/attachment-preview.ts:242-256 | a literal ends behind the first delimiter, or for one-line literals at the first line break, that an even number of backslashes precedes; else at the end of the text |
| Highlight.LiteralStaysOnLine | ui/src/features/attachment-preview.ts:242-256 | a one-line literal holds no line break but an escaped one, and ends at its quote, at the line's end, or at the end of the text |
| Highlight.FindMarked | ui/src/features/attachment-preview.ts:343-376 | comments and literals in their order of precedence |
| Highlight.HighlightCode | ui/src/features/attachment-preview.ts:326-395 | the scan with its buffer of plain text writes the specified tokens |
| Highlight.HighlightMarkup | ui/src/features/attachment-preview.ts:273-319 | the nested loops over text and tags write the specified tokens |
| Highlight.TextOfTokens | ui/src/features/attachment-preview.ts:225-231 | reading a written page gives back its tokens' text: spans close before the next opens and no markup character is bare |
| Highlight.TokensPartition | ui/src/features/attachment-preview.ts:321-325 | the tokens cut the text into consecutive stretches |
| Highlight.TokensAreRight | ui/src/features/attachment-preview.ts:225-395 | every token is of the class its place demands, by the text alone: where a comment mark begins, to its end mark or the end of its line; where a quote begins, the literal to its end; a number, a word that is a keyword or is not, where the patterns say so; and plain text only where none of these begins; in markup likewise comments, tags, names, attributes and values |
| Highlight.Highlight | ui/src/features/attachment-preview.ts:326-395 | for every text and language, removing the spans and unescaping gives back the text, and the page is that of tokens that are right in the sense of `TokensAreRight` |
| RunnerLinks.StepKeeps | vscode-extension/src/link.ts:96-358 | every event keeps the link in order and a stopped link stopped |
| RunnerLinks.AlwaysOneThingUnderWay | vscode-extension/src/link.ts:166-358 | from its start, under every interleaving of events, a running link has exactly one token fetch, socket or timer under way; not standing by, its next wait is between one and thirty seconds |
| RunnerLinks.StepMakes | vscode-extension/src/link.ts:96-358 | what one event does to the link's memory: welcomed once, stopped, standing by |
| RunnerLinks.StoppedIfAndOnlyIf | vscode-extension/src/link.ts:111-358 | over every run from the start, by the events alone: the link is stopped if and only if there was a stop, a refusal with 401 or 403, a close with 4403 of a socket not refused before, or a missing token with no welcome before it; it stands by if and only if it began so or was turned away or taken over (4409) while running, and was not welcomed since |
| RunnerLinks.LossWaits | vscode-extension/src/link.ts:166-175 | losing its token, upgrade or socket otherwise, a running link arms one timer: for the current wait, one second after a welcomed connection, the poll of a standby that central knows, five minutes of one it does not; and the next wait doubles up to thirty seconds |
| RunnerLinks.WaitsGrow | vscode-extension/src/link.ts:170-175 | k refusals in a row leave exactly the wait that is k times doubled, from one second, up to thirty |
| RunnerLinks.NudgeHurries | vscode-extension/src/link.ts:122-135 | a nudge ends a wait at once and sets the next one back to one second, and does nothing to a link that is stopped, standing by or not waiting |
| RunnerLinks.StoppedStaysStopped | vscode-extension/src/link.ts:111-120 | once stopped, no event opens a socket or arms a timer |
| RunnerLinks.LateWelcome | vscode-extension/src/link.ts:253-283 | a welcome read after a stop still marks the stopped link as welcomed |
| RunnerLinks.WelcomedAfterStop | vscode-extension/src/link.ts:253-283 | the run from the start: a socket opens, the link is stopped, and the welcome on its way arrives |
| RunnerLinks.EndsWelcomed | vscode-extension/src/link.ts:96-358 | however a link stops, it stops unwelcomed, and over every run it ends welcomed if and only if a welcome comes later that no stop follows, on a socket not yet closed at the stop |
| RunnerLinks.RunnerLink.Start | vscode-extension/src/link.ts:107-110 | a fresh link, started, is fetching a token and nothing else |
| RunnerLinks.RunnerLink.OnTimer | vscode-extension/src/link.ts:170-173 | a timer that fires starts an attempt |
| RunnerLinks.RunnerLink.OnOpen | vscode-extension/src/link.ts:244 | the hello says whether the link stands by at the moment the socket opens |
| RunnerLinks.RunnerLink.OnToken | vscode-extension/src/link.ts:177-217 | what the arrival or failure of a token does |
| RunnerLinks.RunnerLink.OnRefused | vscode-extension/src/link.ts:220-243 | what a refused upgrade does |
| RunnerLinks.RunnerLink.OnWelcome | vscode-extension/src/link.ts:253-260 | what a welcome does |
| RunnerLinks.RunnerLink.OnClose | vscode-extension/src/link.ts:327-357 | what the closing of a socket does, its own or an older one |
| RunnerLinks.RunnerLink.DoNudge | vscode-extension/src/link.ts:122-135 | tries at once only while waiting and not standing by |
| RunnerLinks.RunnerLink.DoStop | vscode-extension/src/link.ts:111-120 | stopping clears the timer and lets go of the socket |
| LinkHandover.MoveKeeps | vscode-extension/src/link.ts:333-345 | every move keeps the windows in order; a takeover leaves one contender fewer |
| LinkHandover.HandoversEnd | vscode-extension/src/link.ts:333-345 | over any run of any number of windows, takeovers are at most the contenders at the start plus the connections made by hand |
| LinkHandover.StandingByNeverTakes | vscode-extension/src/link.ts:50-55 | windows that all stand by never take the machine from one another |
| ActivityLogs.ActivityLog.Rotate | vscode-extension/src/activity-log.ts:43-50 | the descending loop of renames moves every file one place on |
| ActivityLogs.ActivityLog.Append | vscode-extension/src/activity-log.ts:26-41 | one append, rotating first when the live file is full |
| ActivityLogs.ShiftShifts | vscode-extension/src/activity-log.ts:43-50 | after rotating, each place holds what the one before it held |
| ActivityLogs.AppendJoins | vscode-extension/src/activity-log.ts:29-37 | a line that finds the live file empty or with room for its bytes joins it, and no other file changes |
| ActivityLogs.AppendRotates | vscode-extension/src/activity-log.ts:29-50 | a line too many begins a new live file, and every file is in the next place |
| ActivityLogs.LogStaysPacked | vscode-extension/src/activity-log.ts:26-50 | over any appends a file stands behind another only because that one's first line did not fit into it |
| ActivityLogs.AppendKeepsEnd | vscode-extension/src/activity-log.ts:26-50 | the log is the end of what it was with the line added, and all of it while the last place is free |
| ActivityLogs.LogIsTheEnd | vscode-extension/src/activity-log.ts:1-5 | after any appends the files, oldest first, hold the end of everything appended |
| ActivityLogs.LogStaysBounded | vscode-extension/src/activity-log.ts:1-5 | no place beyond the last is used and no file passes the limit when no line does |
| AuditLogs.AuditLog.PruneAuditFiles | app/src/audit.ts:184-209 | the two steps of pruning give the specified listing |
| AuditLogs.PruneIsExact | app/src/audit.ts:183-209 | what is left is the newest day files, in the window, within the cap or none; each file gone was past the window or, with the newer ones, over the cap |
| AuditLogs.AuditLog.RollAuditFile | app/src/audit.ts:169-181 | the live file takes the day's first free number |
| AuditLogs.RolledKeeps | app/src/audit.ts:164-181 | rolling over overwrites no day file and keeps the listing in order |
| AuditLogs.AuditLog.MaybeRoll | app/src/audit.ts:226-251 | rolls over exactly on a new day or at a quarter of the cap, and prunes then |
| AuditLogs.AuditLog.Audit | app/src/audit.ts:266-285 | the event joins the live file exactly on the day of its last write and below a quarter of the cap; otherwise the live file becomes a day file of the day it belongs to and the event begins a fresh one; the counted size is the real one; it stays under a quarter of the cap unless one event is larger; day files within the cap stay within it |
| SecretScan.Utf16Of | vscode-extension/src/secret-scan.ts:82-97 | the counting loop decides as `ReadAsDecides` says: byte order marks, or zeros at nearly all odd or even places of the head |
| SecretScan.ReadAsDecides | vscode-extension/src/secret-scan.ts:82-122 | from the first 8,192 bytes: UTF-16 of either order if and only if its mark begins them or, of at least eight pairs, at least nine tenths have a zero at its place and at most one tenth at the other; binary if and only if neither and a zero is among them |
| SecretScan.EncodedReads | vscode-extension/src/secret-scan.ts:126-129 | text encoded in UTF-16 of either order, by an encoder of its own, reads as that text |
| SecretScan.MarkedReads | vscode-extension/src/secret-scan.ts:82-84 | with its mark first it is recognised, whatever its characters |
| SecretScan.UnmarkedReads | vscode-extension/src/secret-scan.ts:85-95 | without a mark too, when it is eight or more ASCII characters |
| SecretScan.NoZerosIsLatin | vscode-extension/src/secret-scan.ts:118-123 | bytes with no zero and no mark at the head are scanned byte by byte |
| SecretScan.WideSecretIsFound | vscode-extension/src/secret-scan.ts:102-140 | an access key id anywhere in such a text of either order, marked or not, makes the file count as holding a secret |
| SecretScan.TextOfStretch | vscode-extension/src/secret-scan.ts:126-132 | a chunk read from an even place is a stretch of the whole text, in one and in two byte encodings |
| SecretScan.ScanFile | vscode-extension/src/secret-scan.ts:102-140 | the chunk loop ends, steps by even amounts, and finds a secret exactly when some chunk holds one |
| SecretScan.NothingMissedOnSeam | vscode-extension/src/secret-scan.ts:18-19 | a token told by its own units alone that fits in the overlap lies whole in one chunk, so it is not missed on a seam |
| SecretScan.NothingMissedWithNeighbours | vscode-extension/src/secret-scan.ts:18-34 | a match that looks at the units beside it, as word boundaries and look-aheads do, is not missed when it and those units fit in the overlap |
| SecretScan.VerdictIsExact | vscode-extension/src/secret-scan.ts:102-140 | for every such pattern a file counts as holding a secret if and only if some match of its text lies in one chunk with the units beside it, or some chunk has a match at an edge that is no edge of the file |
| SecretScan.FalseAlarmsAreCut | vscode-extension/src/secret-scan.ts:102-140 | a file whose text has no match counts as holding a secret if and only if some chunk has a match at such an edge, and then every match of every chunk is at one |
| SecretScan.ChunksSearchWhole | vscode-extension/src/secret-scan.ts:18-19 | when a match of the text, if there is one, fits in the overlap: scanning decides as searching the whole text does, if and only if the text has a match or no chunk has one at such an edge |
| SecretScan.SlackAtEdge | vscode-extension/src/secret-scan.ts:26 | an input where it does not: a token prefix inside a word, where the second chunk begins |
| SecretScan.ChunksAreWholeSearch | vscode-extension/src/secret-scan.ts:18-19 | for patterns told by their own units alone, no longer than half the overlap, searching by chunks is searching the whole text |
| SecretScan.Scanner.LeaveOutSecrets | vscode-extension/src/secret-scan.ts:142-184 | with its cache, over any earlier calls, the split is the one every file scanned afresh would give, while a signature determines content |
| SecretScan.SplitPartitions | vscode-extension/src/secret-scan.ts:148-157 | the two lists hold every file given, as often as given; one those with secrets, the other the rest |

## Left out

- HunkPlacing.SearchIsNearest: completeness is stated for expected places from which every line of the file is within reach, because beyond that the code misses fits.
- LineDiff.DiffIsMinimal: only below the cut-off of 4,000,000 cells; above it one large hunk is deliberate, and only the description and the round trip hold.
- DocumentText.DecidedTextIsDecidedLines: for texts with one kind of line ending, because the code joins lines with one ending.
- TextReviews.FaithfulIsSteady: for files with one kind of line ending and proposals whose lines hold no line break, whole or half, because the code joins lines with one ending.
- RetentionRuns.Run.Prune: the report's byte and reason counts, the vacuum, and the removal of mailboxes and folders after a row is deleted are not modelled; databases raise only where a session's deletion does.
- MirrorTree.FileSystem.MirrorInto: no other process changes the tree during the call; hard links, folders as sources, and failures of the filesystem itself are not modelled; paths are lists of plain names.
- MirrorTree.MirrorsCopies: assumes that equal size and time mean equal bytes, as the code does.
- SecretScan.ChunksAreWholeSearch: for patterns that depend only on what they match; `VerdictIsExact` and `FalseAlarmsAreCut` cover those that look beside it.
- SecretScan.VerdictIsExact: the equivalence is for a search decided stretch by stretch, as the token patterns are; the two searches for assignments take matches one after another, so of `hasSecret` as a whole only `NothingMissedWithNeighbours` holds.
- SecretScan.Utf16Of: the shares of zeros are compared exactly, not in floating point; a head has at most 4,096 pairs, too few for the two to differ, which is not proved.
- LinkHandover.HandoversEnd: connections are not dropped, central frees the machine at once when a window stops, and central knows standby; central itself is not in the repository and is modelled from what the link expects of it.
- AuditLogs.AuditLog.Audit: writes succeed; the suffix of history is not claimed for day files, because the code reuses a freed number.
- ActivityLogs.ActivityLog.Append: writes succeed, and a log keeps at least one file.
- CsvPreview.ParsingUndoesPrinting: plain fields do not begin with a quote or a byte order mark, and no lone CR is printed before an empty line that ends in LF, because the two are one break.
- Typing during a review: `adjustBlocks`, `blockAt`, undo and `onChange` are not modelled, nor saving and restoring a review across a reload, nor a byte order mark of the file.
- Two decisions for one file overlapping in time: each is modelled as finished before the next begins.
- Regular expressions of `callMatches`, of the highlighter's words, numbers, tags and attributes, and of the secret patterns: arbitrary relations or functions, the highlighter's with the length of the match.
- The highlighter's table of languages and file extensions: any language with non-empty delimiters.
- Ids and times of sessions are integers, and conversation keys are triples rather than strings joined by a NUL.
- The link's log lines, status reports, request handling and update offers.
- `readAuditEvents`, audit sinks, and audit settings that change while running.
- Everything around these components: the editor's interface, git, SQLite, the web pages, and the small pure helpers.
