# Verified model of the review bot's core

`review-bot` turns the diff of a merge request into inline comments and follows the threads those
comments open; `review-engine` ranks the rules behind them. This project models the parts of both
where the logic is hard, in the form the source has them, and proves what they are for.

How it is laid out:

- `Scheduler`, `SchedulerLoop`, `SchedulerTheorems`: which candidates a publish batch takes. The
  source drains per-file queues in nested loops with shared counters. `Scheduler.Select` says the
  same with no memory but the picks made so far; `SchedulerLoop` has the loops and proves they compute
  it; `SchedulerTheorems` proves what such a batch guarantees.
- `Hunks`, `HeaderTheorems`, `HunkTheorems`, `DiffScripts`, `SplitTheorems`, `PatchTheorems`, `LineEndings`: cutting a
  unified diff into review units, numbering its lines, splitting large units. A diff script of two files is
  printed in the POSIX `diff -u` format (POSIX.1-2017, `diff`, "Diff -u or -U Output Format"), and what the
  pipeline records is compared with the two files. The texts may hold any characters, empty kept lines may
  be printed bare, and the last line may be ended or not.
- `ChangeAnalysis`, `Anchors`: reading a numbered snippet back, and choosing the line a comment is
  anchored to.
- `Threads`, `Session`, `ThreadTheorems`, `DecisionTheorems`: the life of a thread under detect, publish
  and sync phases. `Session.ReviewSession` runs the phases on rows that are assigned to in place while
  queries still see the committed rows (sessions do not flush before a query,
  `review-bot/review_bot/db/session.py:27`); `Threads` is what a phase does as a function; the theorems
  are about every run of phases.
- `Publication`: the classifiers of an existing thread, same-line suppression, one post per key.
- `Feedback`: reading feedback directly and through the cache. `Report`, `ReportTheorems`: the full
  report. `Ranking`: the rule ranking. `Resolution`: rule resolution. `RateLimit`: the webhook limiter.
- `Text`, `Sorting`, `Records`, `Guidelines`: lines and numbers, Python's stable sort, the rows, the rule
  records and priority policies.

Methods with loops stand where the source has loops and are proved against functions; the theorems are
about the functions.

## Where the code does not do what one would expect

Each of these is stated as the exact condition under which the expectation holds, and, where it can fail,
shown to fail on a concrete input.

- Lines are cut at every break Python's `splitlines` knows, and a diff's own lines may hold some of them
  (form feed, a lone carriage return, NEL and others). Added text that starts with `++`, or deleted text
  that starts with `--`, is taken for a file header and dropped. An empty line that is kept may be printed
  bare, without its blank (the format allows it, and git does so under `diff.suppressBlankEmpty`); it is not
  counted. The recorded lines of a printed diff are its changed lines with their true positions if and only
  if (1) every changed text is one line and does not look like a file header, (2) no line before the first
  hunk reads as a hunk header, and no other text of a hunk leaves behind, after a break, what reads as a
  hunk header or a changed line, and (3) before each change as many lines are left behind that read as
  context as empty lines are printed bare (`PatchTheorems.PatchLineNumbersAreTrueExactlyWhen`). For texts
  without breaks that is: no text looks like a file header, and no bare line stands before a change of its
  hunk (`PatchTheorems.UnbrokenReadsTrulyExactlyWhenClean`,
  `HunkTheorems.RecordedLinesAreTrueExactlyWhenClean`). Two lines are enough to fail in each way:
  `HunkTheorems.PlusesShiftTheNextLine`, `HunkTheorems.BareLineShiftsTheNextLine`,
  `PatchTheorems.FormFeedShiftsTheNextLine`.
- A carriage return at the end of a line is read as part of the break, so a diff of files with such lines
  records their texts without it. Their positions are true under the same condition on the texts without
  the returns (`LineEndings.ReturnsAreDroppedExactlyWhenClean`).
- A piece of a split unit claims contiguous line numbers in its header. Reading its patch again gives
  the piece back if and only if no line of context stands between its first added line and its last
  (`SplitTheorems.EveryPieceReadsBackExactlyWhenNothingIsKeptInside`); a hunk of 81 additions with one kept
  line after the first fails (`SplitTheorems.GappedPieceIsNotReadBack`).
- An issue that needs a direct signal is anchored at a line that shows it, except for exactly the units
  whose added lines are all blank: there the first of them is the anchor
  (`Anchors.AnchorShowsTheSignalExactlyWhenReadable`, `Anchors.BlankLineIsAnchoredWithoutSignal`).
- A finding whose anchor changed while its text did not, because its hunk has another header, is counted as
  published, but nothing is posted under the new anchor (`Publication.SkippedExactlyWhen`,
  `Publication.MovedFindingIsNotPosted`).
- The list of candidates the publish phase skips as already existing is always empty, because the
  backlog takes them first (`Publication.ClassifiersAgree`).
- The backlog is documented to keep the most recently updated thread of a finding. It does if and only
  if that thread itself belongs in the backlog; otherwise an older one stands in for it
  (`ReportTheorems.BacklogKeepsTheNewestExactlyWhenItShows`, `ReportTheorems.OlderThreadStandsIn`).
- A decision with a fingerprint is missing from the report if and only if it was neither suppressed by
  feedback, nor failed, nor posted in this run, somebody asked to defer it, and none of its threads is open
  or resolved (`ReportTheorems.EveryDecisionAccountedFor`, `ReportTheorems.DeferredDecisionIsMissing`).
- A full sync leaves a thread open that no current finding stands behind if and only if it was stored as
  not open and reconciling in the same phase opens it (`ThreadTheorems.SyncLeavesOrphanExactlyWhen`,
  `ThreadTheorems.FullSyncLeavesReopenedOrphan`). After detect, publish and full sync on the same snapshots
  there is none (`ThreadTheorems.WholeRunLeavesNoOrphan`).
- Reconciling remembers the last head it observed, but the sync loop overwrites it even with none: a thread
  that is resolved after a sync without a head never counts as fixed (`ThreadTheorems.FixedSinceLastSeen`,
  `ThreadTheorems.BlindSyncForgetsTheHead`).
- Publishing can move a thread out of resolved without an event, so "reopened" events count only the
  moves made by reconciling (`ThreadTheorems.LogCountsTransitions`, `ThreadTheorems.TransitionsBalance`).
  It does so if and only if a posting that names the thread goes out
  (`ThreadTheorems.StaysResolvedExactlyWhenNotPostedTo`, `ThreadTheorems.PostingReopensSilently`).
- The ranking does not depend on the order of retrieval if and only if no two different candidates tie,
  that is, share their id, their score and every measure the tie breakers compare
  (`Ranking.RankingIsCanonicalExactlyWhenNothingTies`, `Ranking.NothingTiesExactlyWhenNoneAlike`). Distinct
  ids ensure it; two records with one id can tie (`Ranking.TwinsBreakCanonicity`).
- Resolving resolved records again changes nothing for records that came with an id; for one without, if and
  only if filling the id in first would make no difference
  (`Resolution.ResolvingAgainChangesNothingExactlyWhen`, `Resolution.UnnamedRecordChanges`).

## Model

| member | source | states |
|---|---|---|
| Scheduler.Next | review-bot/review_bot/bot/review_runner.py:4137-4171 | the turn goes to an unblocked candidate that comes before every other unblocked one by group, picks its file already has, first appearance of the file, sort order; none is given exactly when all are blocked |
| Scheduler.OrderedIsSorted | review-bot/review_bot/bot/review_runner.py:4109-4121 | the ordering keeps exactly the candidates outside group 3 and the backlog, each as often as it came, sorted by the key |
| Scheduler.NoneIsOutranked | review-bot/review_bot/bot/review_runner.py:4109-4121 | no candidate is sorted behind one of a lower group, or of its group with a higher score, or the same score and an earlier creation, or both the same and an earlier path |
| SchedulerLoop.FillBuckets | review-bot/review_bot/bot/review_runner.py:4122-4131 | the loop's buckets hold, per group and file, that file's candidates in order, and list each group's files by first appearance |
| SchedulerLoop.TakeTurn | review-bot/review_bot/bot/review_runner.py:4141-4160 | a file's turn drops only blocked candidates and takes the first unblocked one, if any; the counters follow |
| SchedulerLoop.PlayRound | review-bot/review_bot/bot/review_runner.py:4138-4168 | after a round, carrying on greedily still gives the same batch; files left out of the next round have nothing open |
| SchedulerLoop.SelectBatchCandidates | review-bot/review_bot/bot/review_runner.py:4101-4174 | the four nested loops over mutable queues compute the greedy batch |
| SchedulerTheorems.BatchIsFeasibleAndMaximal | review-bot/review_bot/bot/review_runner.py:4101-4174 | the batch has no repetition, no (file, rule) pair twice, respects both caps and the size, ascends in groups, and when it is short every candidate left is blocked |
| SchedulerTheorems.FactorTwo | review-bot/review_bot/bot/review_runner.py:4101-4174 | no set of candidates within the same caps and size is more than twice as large as the batch |
| SchedulerTheorems.FactorTwoIsTight | review-bot/review_bot/bot/review_runner.py:4101-4174 | there are candidates for which the batch takes one and two would fit |
| SchedulerTheorems.RoundRobinIsFair | review-bot/review_bot/bot/review_runner.py:4133-4171 | at any moment, a file two picks behind another of its group has only blocked candidates left there |
| SchedulerTheorems.BetterKeyFirst | review-bot/review_bot/bot/review_runner.py:4109-4131 | within a group and file nothing is picked while a candidate with a higher score, or at the same score an earlier creation, is open |
| SchedulerTheorems.SmallerBatchIsPrefix | review-bot/review_bot/bot/review_runner.py:4137-4174 | the batch of a smaller size is a prefix of the batch of a larger |
| SchedulerTheorems.HigherGroupsNeverDisplace | review-bot/review_bot/bot/review_runner.py:4133-4174 | selecting only from groups up to any bound gives a prefix of the whole batch |
| SchedulerTheorems.BestGoesFirst | review-bot/review_bot/bot/review_runner.py:4109-4174 | the candidate whose group is lower than that of every other, or the same with a higher score, earlier creation or earlier path in this order, opens the batch |
| Hunks.WalkHunk | review-bot/review_bot/bot/review_runner.py:3617-3650 | the loop with its two counters and three lists records the changed lines, their candidate numbers and the numbered lines |
| Hunks.BuildReviewUnit | review-bot/review_bot/bot/review_runner.py:3617-3659 | the unit of a hunk, with its default line |
| Hunks.CandidatesAscend | review-bot/review_bot/bot/review_runner.py:3627-3652 | candidate line numbers strictly ascend from the hunk's start, so removing duplicates removes nothing |
| Hunks.SplitLargeAddedUnit | review-bot/review_bot/bot/review_runner.py:3661-3692 | a unit of more than 80 added lines and nothing else becomes its chunks; any other stays |
| Hunks.IterReviewUnits | review-bot/review_bot/bot/review_runner.py:3583-3615 | the units of a patch, split; a patch without a hunk is one unit without lines |
| HunkTheorems.ParseHeaderOf | review-bot/review_bot/bot/review_runner.py:64-64 | every printed hunk header is read back, with or without counts, whatever follows it |
| HeaderTheorems.HeaderIsReadExactlyWhen | review-bot/review_bot/bot/review_runner.py:64-64 | a text is read as a hunk header with these two starts if and only if it has the form of the pattern with these two numbers, followed by anything |
| HeaderTheorems.FirstHeaderIsFound | review-bot/review_bot/bot/review_runner.py:3577-3581 | the search for a line number gives the new start of the first place in the text where the pattern fits, and nothing if it fits nowhere |
| HeaderTheorems.DefaultLineIs | review-bot/review_bot/bot/review_runner.py:3652-3652 | the default line of a hunk is its first added line, else the new start of its header |
| HeaderTheorems.CutExactlyAtHeaders | review-bot/review_bot/bot/review_runner.py:3583-3600 | the hunks are the lines from the first that starts with two at-signs on, cut before each such line and nowhere else |
| HunkTheorems.UnitsConserveThePatch | review-bot/review_bot/bot/review_runner.py:3583-3605 | the unit patches joined are the patch from its first header on, for every text |
| HunkTheorems.RecordedLinesAreTrueExactlyWhenClean | review-bot/review_bot/bot/review_runner.py:3625-3650 | the recorded lines are the hunk's changed lines with true numbers if and only if no added text starts with ++, no deleted text with --, and no empty kept line printed bare stands before a change |
| HunkTheorems.PlusesShiftTheNextLine | review-bot/review_bot/bot/review_runner.py:3625-3643 | adding `++x` and `y` at line 1 records `y` alone, as line 1 instead of 2 |
| HunkTheorems.BareLineShiftsTheNextLine | review-bot/review_bot/bot/review_runner.py:3645-3650 | a bare line followed by an added `x` records `x` as line 1 instead of 2 |
| HunkTheorems.TrueLinesAreInTheFiles | review-bot/review_bot/bot/review_runner.py:3625-3650 | a true number is where the line's text stands in the new, or for deletions the old, file |
| HunkTheorems.CandidatesAreTheAdditions | review-bot/review_bot/bot/review_runner.py:3627-3652 | the candidate numbers are exactly the new-file positions of the added lines |
| PatchTheorems.PrintedPatchIsCutBackExactlyWhenUnbroken | review-bot/review_bot/bot/review_runner.py:3583-3605 | cutting the printed diff of two files, whatever its texts, gives back exactly its hunks if and only if no text of them holds a line break, no line before them reads as a header, and the last line is ended or not a bare one |
| PatchTheorems.PatchLineNumbersAreTrueExactlyWhen | review-bot/review_bot/bot/review_runner.py:3583-3659 | over a whole printed patch of any texts, with its last line ended or not, all hunks record their changed lines with true positions if and only if every changed text is one line that looks like no file header, no other text leaves behind a break a header or a changed line, and before each change as much context is left behind as empty lines are printed bare |
| PatchTheorems.HunkIsTrueExactlyWhen | review-bot/review_bot/bot/review_runner.py:3617-3659 | the same of the lines of one hunk as they are read |
| PatchTheorems.UnbrokenReadsTrulyExactlyWhenClean | review-bot/review_bot/bot/review_runner.py:3625-3650 | without line breaks in the texts the condition is that none looks like a file header and no bare line stands before a change of its hunk |
| PatchTheorems.FormFeedShiftsTheNextLine | review-bot/review_bot/bot/review_runner.py:3585-3650 | a clean two-line hunk whose first text holds a form feed is recorded cut short and with line 3 for line 2 |
| PatchTheorems.BareLineSpoilsThePatch | review-bot/review_bot/bot/review_runner.py:3625-3650 | the diff with a bare line before an added one is not recorded truly |
| PatchTheorems.LeftoverMakesUpForBareLine | review-bot/review_bot/bot/review_runner.py:3585-3650 | a kept line that leaves context behind a form feed makes up for a bare one, so neither alone decides |
| LineEndings.ReturnsAreDroppedExactlyWhenClean | review-bot/review_bot/bot/review_runner.py:3583-3659 | if the texts hold no break but returns at their ends, the recorded lines are the changed lines without the returns, at their true positions, if and only if no text looks like a file header, no bare line stands before a change, and no line before the hunks reads as a header |
| DiffScripts.TrueNumbersNameFileLines | review-bot/review_bot/bot/review_runner.py:3617-3659 | every true number of a script names a line of one of its two files with that text |
| SplitTheorems.SplitConserves | review-bot/review_bot/bot/review_runner.py:3661-3692 | splitting keeps lines and candidates in order, in non-empty chunks of at most 80 |
| SplitTheorems.SplitExactlyWhenLargeAndAdded | review-bot/review_bot/bot/review_runner.py:3661-3692 | a hunk with a readable header is split if and only if it records more than 80 lines and all are added, into as few pieces as fit, each of 80 lines but the last |
| SplitTheorems.SplittingConserves | review-bot/review_bot/bot/review_runner.py:3606-3610 | so does splitting all units of a patch |
| PatchTheorems.ReviewedLinesAreTheChangedLines | review-bot/review_bot/bot/review_runner.py:3583-3692 | end to end: what is reviewed of a printed diff whose recorded lines are true is its changed lines in order, each naming a line of its file with that text |
| SplitTheorems.ChunkReadsBackExactlyWhenContiguous | review-bot/review_bot/bot/review_runner.py:3669-3691 | reading a chunk's own patch gives exactly that chunk if and only if its numbers run on without a gap |
| SplitTheorems.SplitPieceReadsBackExactlyWhenContiguous | review-bot/review_bot/bot/review_runner.py:3661-3692 | the same for every piece of every hunk that is split |
| SplitTheorems.EveryPieceReadsBackExactlyWhenNothingIsKeptInside | review-bot/review_bot/bot/review_runner.py:3661-3692 | in terms of the hunk, for every piece of every hunk of every patch: it is read back if and only if no context line stands between the rows of its first and last added line |
| SplitTheorems.GappedPieceIsNotReadBack | review-bot/review_bot/bot/review_runner.py:3661-3692 | a hunk of one added, one kept and eighty added lines is split into a first piece that is not read back |
| ChangeAnalysis.ParseNumberedChangeSnippet | review-bot/review_bot/providers/change_analysis.py:52-76 | the reading loop gives the lines of the snippet it can read, in order |
| ChangeAnalysis.NumberedLineExactlyWhen | review-bot/review_bot/providers/change_analysis.py:6-8 | a line is read with a number if and only if it has the form of the pattern, with that number, sign and text |
| ChangeAnalysis.RawLineExactlyWhen | review-bot/review_bot/providers/change_analysis.py:9-9 | a line is read without a number if and only if, stripped, it is a sign and a text that begins with no other sign |
| ChangeAnalysis.LineRoundTrip | review-bot/review_bot/providers/change_analysis.py:52-76 | a printed line is read back with marker and number, trailing blanks trimmed; a blank one is not read |
| ChangeAnalysis.UnitSnippetRoundTrip | review-bot/review_bot/bot/review_runner.py:3623-3657 | the snippet of a hunk's unit reads back as its changed lines, less blank ones |
| Anchors.EverySnippetReadsBack | review-bot/review_bot/bot/review_runner.py:3583-3692 | so does the snippet of every unit of every patch, split or not |
| Anchors.EveryUnitIsWellMade | review-bot/review_bot/bot/review_runner.py:3583-3692 | every unit with candidates shows its changed lines under a header |
| Anchors.InferredLineIsACandidate | review-bot/review_bot/providers/change_analysis.py:122-170 | for any keywords, the line chosen for a unit is none or one of its candidates |
| Anchors.DecisionsStayInScope | review-bot/review_bot/bot/review_runner.py:3702-3731 | a decision names an added line of its hunk whenever there is one, so it is out of scope exactly for hunks that add nothing |
| Anchors.AnchorShowsTheBestSignal | review-bot/review_bot/providers/change_analysis.py:122-170 | where a signal is needed and some added line is readable, the anchor is the first line that passes the first keyword group any readable added line passes, and there is none exactly when none passes any |
| Anchors.AnchorShowsTheSignalExactlyWhenReadable | review-bot/review_bot/providers/change_analysis.py:131-159 | for every unit of every patch: an anchor is given that shows no signal exactly when the unit adds lines and none is readable; then it is the first added line |
| Anchors.AnyLineIsTheFirst | review-bot/review_bot/providers/change_analysis.py:122-170 | for every unit of every patch: without keywords the anchor is the first added line that can be read back, else the first added line, else the default line |
| Anchors.RequestedLineCountsExactlyWhenACandidate | review-bot/review_bot/bot/review_runner.py:3702-3731 | a requested line is taken if it is a candidate and makes no difference if others are; without candidates it is the answer unless a signal is needed or it is 0 |
| Anchors.BlankLineIsAnchoredWithoutSignal | review-bot/review_bot/providers/change_analysis.py:131-134 | a hunk that deletes `free(p);` and adds a blank line has every such issue anchored at the blank line |
| Anchors.DecisionNamesAnAddedLine | review-bot/review_bot/bot/review_runner.py:3702-3731 | end to end: of a printed diff whose recorded lines are true, the decision of a unit that adds a line names a line of the new file that the diff adds |
| Session.DistinctRefs | review-bot/review_bot/db/models.py:182-182 | the uniqueness constraint on thread references holds of a list of rows |
| Session.ReviewSession.constructor | review-bot/review_bot/db/session.py:27-27 | a session opens on the stored rows with nothing pending |
| Session.ReviewSession.MarkFingerprintResolved | review-bot/review_bot/bot/review_runner.py:1625-1642 | the decisions of the finding that are active in the committed rows become resolved in memory |
| Session.ReviewSession.MarkFingerprintReopened | review-bot/review_bot/bot/review_runner.py:1644-1673 | with none active in the committed rows, the latest resolved decision becomes published |
| Session.ReviewSession.ReconcileOne | review-bot/review_bot/bot/review_runner.py:1821-1917 | one tracked thread against its snapshot: row, decisions and log |
| Session.ReviewSession.ReconcileThreadSnapshots | review-bot/review_bot/bot/review_runner.py:1821-1917 | the pass over all tracked threads, uncommitted |
| Session.ReviewSession.ExecuteDetect | review-bot/review_bot/bot/review_runner.py:325-378 | detect reconciles, adds what was found and commits |
| Session.ReviewSession.PostCandidate | review-bot/review_bot/bot/review_runner.py:647-739 | posting one candidate: nothing when it is there, a new row when there is none or the anchor moved, else the row updated |
| Session.ReviewSession.ExecutePublish | review-bot/review_bot/bot/review_runner.py:552-739 | publishing all selected candidates, or nothing if a new thread reference clashes |
| Session.ReviewSession.SyncOne | review-bot/review_bot/bot/review_runner.py:932-1005 | one thread read as open from the committed rows, its object already reconciled |
| Session.ReviewSession.ResolveOrphans | review-bot/review_bot/bot/review_runner.py:924-1005 | the loop over those threads |
| Session.ReviewSession.ExecuteSync | review-bot/review_bot/bot/review_runner.py:887-1022 | a sync reconciles, resolves orphans and commits |
| ThreadTheorems.ReconcileTwice | review-bot/review_bot/bot/review_runner.py:1821-1917 | reconciling a thread again with the same snapshots changes neither status nor reason and logs nothing |
| ThreadTheorems.DetectTwiceIsQuiet | review-bot/review_bot/bot/review_runner.py:1821-1917 | so for a whole second detect phase |
| ThreadTheorems.FixedExactlyWhenTouched | review-bot/review_bot/bot/review_runner.py:1733-1819 | a thread newly reported as resolved counts as fixed exactly when its last seen head and the observed one are known and differ and the diff touches it, else as closed by hand; row and event agree |
| ThreadTheorems.OpenAgainExactlyWhen | review-bot/review_bot/bot/review_runner.py:1894-1917 | a closed thread is open after reconciling if and only if its snapshot is unresolved and it was resolved, or stale for another reason than a moved anchor; as reopened, with an event, exactly if it was resolved |
| ThreadTheorems.ReopenedIsAnswered | review-bot/review_bot/bot/review_runner.py:647-668 | the comment of a thread somebody reopened is not skipped when posted again |
| ThreadTheorems.FixedSinceLastSeen | review-bot/review_bot/bot/review_runner.py:1821-1917 | seen open at one head, then with no head observed, then resolved at another: fixed exactly when the two heads differ and the diff touches it |
| ThreadTheorems.BlindSyncForgetsTheHead | review-bot/review_bot/bot/review_runner.py:935-942 | after a sync that observes no head a live thread can only be closed by hand, never fixed |
| ThreadTheorems.UnloggedResolveIsNoTransition | review-bot/review_bot/bot/review_runner.py:935-940 | the one assignment of resolved without an event never moves a thread |
| ThreadTheorems.SyncSparesCurrentFindings | review-bot/review_bot/bot/review_runner.py:903-1005 | a thread whose fingerprint some eligible or published decision of the run has is left by sync as reconciling left it, and no event "no longer eligible" is added for it |
| ThreadTheorems.SyncMovesExactlyTheOrphaned | review-bot/review_bot/bot/review_runner.py:903-1005 | for every row of every sync: read as open, not resolved remotely, no eligible or published decision of the run with its fingerprint, and in reach of an incremental run, it becomes resolved as no longer eligible, or stale if the remote side fails; otherwise its status and reason are those reconciling gave it |
| ThreadTheorems.SyncLogsExactlyTheOrphaned | review-bot/review_bot/bot/review_runner.py:924-980 | "no longer eligible" is logged for exactly those rows that the remote side resolves |
| ThreadTheorems.SyncLeavesNoOrphan | review-bot/review_bot/bot/review_runner.py:924-1005 | after a full sync a thread read as open is resolved, stale with a failed resolve, or has an eligible or published decision of the run behind it |
| ThreadTheorems.SyncLeavesOrphanExactlyWhen | review-bot/review_bot/bot/review_runner.py:887-1005 | for every row of every sync: it is left open with no eligible or published decision of the run behind it exactly when it has none and, read as open, the run is incremental, misses its file and its snapshot is not resolved, or, read as resolved or as stale with its anchor unchanged, its snapshot is there and not resolved |
| ThreadTheorems.FullSyncLeavesReopenedOrphan | review-bot/review_bot/bot/review_runner.py:887-1005 | a resolved thread that is unresolved again remotely is left open by a full sync though no finding stands behind it |
| ThreadTheorems.WholeRunLeavesNoOrphan | review-bot/review_bot/bot/review_runner.py:325-1005 | detect, publish and a full sync on the same snapshots leave no row open without an eligible or published decision of the run behind it, new rows included |
| ThreadTheorems.RunsStayCoherent | review-bot/review_bot/bot/review_runner.py:1821-1917 | over every run, only seven pairs of status and reason occur |
| ThreadTheorems.StepKeepsRows | review-bot/review_bot/bot/review_runner.py:552-1022 | no phase removes a row or changes its reference or fingerprint, and references stay unique |
| ThreadTheorems.StepCounts | review-bot/review_bot/bot/review_runner.py:552-1022 | what one phase adds to a thread's log is exactly how it moves the thread |
| ThreadTheorems.LogCountsTransitions | review-bot/review_bot/bot/review_runner.py:1821-1917 | over every run a thread's resolved events are its entries into resolved and its reopened events its moves from resolved to open outside publishing |
| ThreadTheorems.TransitionsBalance | review-bot/review_bot/bot/review_runner.py:710-739 | entries are reopenings plus silent exits by publishing, plus one if it is resolved now |
| ThreadTheorems.PostingShows | review-bot/review_bot/bot/review_runner.py:680-739 | a posting that goes out leaves one open row that shows its anchor, body, decision, comment and head; a thread left at another anchor goes stale; every other row stays; the decision is published |
| ThreadTheorems.PostedIsThere | review-bot/review_bot/bot/review_runner.py:647-668 | posting the same comment again on that row is skipped and changes nothing |
| ThreadTheorems.FailedPosting | review-bot/review_bot/bot/review_runner.py:680-739 | a posting that fails suppresses the decision if its anchor is unavailable, else fails it, and changes nothing else |
| ThreadTheorems.PostingReopensSilently | review-bot/review_bot/bot/review_runner.py:710-739 | posting again to a resolved thread at the same anchor opens it and logs nothing |
| ThreadTheorems.StaysResolvedExactlyWhenNotPostedTo | review-bot/review_bot/bot/review_runner.py:647-739 | a resolved row stays resolved through a publish phase if and only if no posting that names it goes out |
| ThreadTheorems.RunsAlternate | review-bot/review_bot/bot/review_runner.py:1821-1917 | over every run each reopened event is directly preceded, in its thread's log, by a resolved one; a resolved thread was last logged as resolved, for the reason its row carries, and one that counts as reopened was last logged as reopened |
| DecisionTheorems.ReconcileSettles | review-bot/review_bot/bot/review_runner.py:1625-1673 | what all the marks of a reconcile do to one decision: neither suppressed nor resolved, it becomes resolved if a thread of its finding newly is; resolved, it is published again if a thread of its finding was reopened, no decision of the finding is pending, and it was updated, then created, last |
| DecisionTheorems.ReconcileIgnoresRowOrder | review-bot/review_bot/bot/review_runner.py:1821-1917 | the order of the thread rows does not matter to the decisions |
| DecisionTheorems.OneWayPerFinding | review-bot/review_bot/bot/review_runner.py:1625-1673 | a reconcile never resolves some decisions of a finding and republishes others |
| DecisionTheorems.LatestResolvedIsLatest | review-bot/review_bot/bot/review_runner.py:1660-1673 | the republished decision is the resolved one updated last, of those created last, of those the first in the table |
| DecisionTheorems.SyncSettles | review-bot/review_bot/bot/review_runner.py:932-980 | what the sync loop adds: resolved if it marks the finding, else as reconciled |
| DecisionTheorems.SyncPhaseSettles | review-bot/review_bot/bot/review_runner.py:887-1005 | a whole sync does to a decision exactly that: resolved if pending and a thread of its finding, read as open, is resolved remotely or resolved as orphaned, else as reconciling settles it; nothing but its state changes |
| DecisionTheorems.SyncKeepsCurrentDecisions | review-bot/review_bot/bot/review_runner.py:903-980 | a decision neither suppressed nor resolved, with an eligible or published decision of the run for its fingerprint, survives a sync unchanged unless one of its threads was resolved remotely |
| Publication.ClassifiersAgree | review-bot/review_bot/bot/review_runner.py:4030-4099 | group 3 implies backlog, and the scheduler sees exactly what is not backlog |
| Publication.GroupsExactly | review-bot/review_bot/bot/review_runner.py:4060-4099 | an iff for each of the four priority groups, in the thread's status, anchor, reason and body and the reminder settings |
| Publication.BacklogExactly | review-bot/review_bot/bot/review_runner.py:4030-4058 | which candidates stay in the backlog and why, and which body is posted |
| Publication.KeysAgreeExactlyWhen | review-bot/review_bot/bot/review_runner.py:3862-3906 | two drafts share a publication key exactly when file, line and trimmed title agree, and contend for one place exactly when file, line and trimmed category agree and none is missing |
| Publication.SkippedExactlyWhen | review-bot/review_bot/bot/review_runner.py:647-668 | a scheduled candidate is not posted exactly when its open thread's text is unchanged at another anchor, or it repeats a reminder word for word |
| Publication.MovedFindingIsNotPosted | review-bot/review_bot/bot/review_runner.py:647-668 | a schedulable finding at the same line under another hunk header, its thread open with the same text: its decision becomes published and no thread changes |
| Publication.Least | review-bot/review_bot/bot/review_runner.py:3925-3932 | the winner of a group is the first of those no worse than any by group, score, rule |
| Publication.SuppressSameLineCategoryEquivalents | review-bot/review_bot/bot/review_runner.py:3907-3940 | exactly the losers of groups with two publication keys are suppressed and marked; the rest is kept in order |
| Publication.SuppressedInFavourOfABetter | review-bot/review_bot/bot/review_runner.py:3925-3938 | each suppressed candidate leaves a kept one with the same line and category and a lower group, or a higher score, or an earlier rule in this order, or level with it and earlier in the list |
| Publication.SuppressedExactlyWhen | review-bot/review_bot/bot/review_runner.py:3907-3940 | a candidate is suppressed if and only if two candidates of its line and category would post under different keys and one of that line and category comes before it by group, score, rule, place |
| Publication.SurvivorsAgree | review-bot/review_bot/bot/review_runner.py:3919-3940 | kept candidates with the same line and category have the same publication key |
| Publication.SuppressionIsIdempotent | review-bot/review_bot/bot/review_runner.py:3907-3940 | suppressing again suppresses nothing |
| Publication.DropSeenKeys | review-bot/review_bot/bot/review_runner.py:636-643 | of candidates with one publication key the first is posted, and each duplicate's key is posted |
| Publication.OneCommentPerLineAndCategory | review-bot/review_bot/bot/review_runner.py:636-643 | in a publish phase no two posted candidates share a publication key, nor a line and category |
| Feedback.Tally | review-bot/review_bot/bot/review_runner.py:2468-2508 | the loop computes the counts and the command with the greatest marker |
| Feedback.LoadFeedbackCache | review-bot/review_bot/bot/review_runner.py:1919-1947 | the two maps answer every fingerprint and thread of the request as the tables do |
| Feedback.CachedSignal | review-bot/review_bot/bot/review_runner.py:2444-2447 | the cached path reads the events thread by thread |
| Feedback.DirectSignal | review-bot/review_bot/bot/review_runner.py:2448-2471 | the direct path reads them at once |
| Feedback.LatestCommandDecides | review-bot/review_bot/bot/review_runner.py:2484-2496 | a command made after every other, by time with a missing one earliest, then by key, decides all five flags and the language |
| Feedback.SomeCommandDecides | review-bot/review_bot/bot/review_runner.py:2484-2496 | with unique keys there is such a command whenever there is any |
| Feedback.NoCommandNoRequest | review-bot/review_bot/bot/review_runner.py:2484-2508 | without a command no flag is set |
| Feedback.SignalCounts | review-bot/review_bot/bot/review_runner.py:2472-2483 | each further event adds one to the count of its kind, of the replies only human ones |
| Feedback.LastCommandOnTheFindingDecides | review-bot/review_bot/bot/review_runner.py:2436-2508 | on both paths the last command on any of the finding's threads decides all flags and the language |
| Feedback.SignalForgetsOrder | review-bot/review_bot/bot/review_runner.py:2472-2508 | with unique event keys the signal depends only on which events there are |
| Feedback.CachedEqualsDirect | review-bot/review_bot/bot/review_runner.py:2436-2508 | both paths give the same signal for any row orders of all four queries |
| Feedback.RepeatedReferencesAreCountedTwice | review-bot/review_bot/db/models.py:182-182 | without unique thread references the two paths would differ |
| Report.CurrentBacklogEntries | review-bot/review_bot/bot/review_runner.py:2870-2926 | the loop lists, per fingerprint, the first thread that belongs in the backlog |
| Report.BuildFullReport | review-bot/review_bot/bot/review_runner.py:1222-1316 | every section lists what it should in either view, and every count is the length of its list |
| Report.FilterFullReportView | review-bot/review_bot/bot/review_runner.py:2765-2780 | the backlog view empties exactly the sections outside the backlog, lists and counts |
| ReportTheorems.EachFingerprintAtHome | review-bot/review_bot/bot/review_runner.py:1222-1316 | each fingerprint is listed once in its one section and nowhere else |
| ReportTheorems.EveryDecisionAccountedFor | review-bot/review_bot/bot/review_runner.py:1222-1316 | every decision of the run is listed once, except, for one with a fingerprint, exactly when it is not suppressed by feedback, not failed, not created or updated, deferred, and without a live thread; what the backlog takes is listed as deferred or as resolved |
| ReportTheorems.ListedExactlyWhereItBelongs | review-bot/review_bot/bot/review_runner.py:1222-1316 | for each of the ten sections, a decision of the run occurs in it, once, if and only if its suppression, state, publication, deferral and newest live thread put it there |
| ReportTheorems.BacklogListsExactly | review-bot/review_bot/bot/review_runner.py:2870-2926 | a finding without a decision of the run is in a backlog section, once, if and only if the last updated of its threads that may stand in the backlog puts it there |
| ReportTheorems.BacklogViewListsExactly | review-bot/review_bot/bot/review_runner.py:2765-2780 | the backlog view lists a decision of the run exactly where it belongs among the three backlog sections, and the full view everything |
| ReportTheorems.RunEntryShows | review-bot/review_bot/bot/review_runner.py:1222-1316 | every entry of a run section shows a decision that belongs there and the reference of its newest live thread |
| ReportTheorems.DeferredDecisionIsMissing | review-bot/review_bot/bot/review_runner.py:2870-2926 | a deferred eligible decision whose only thread is stale is in no section |
| ReportTheorems.LeftToTheBacklog | review-bot/review_bot/bot/review_runner.py:2782-2814 | a decision has no run section if and only if it is not suppressed by feedback, failed or posted, and is deferred or resolved as it is; run sections are never backlog sections |
| ReportTheorems.FindExistingIsNewest | review-bot/review_bot/bot/review_runner.py:2707-2727 | the lookup finds a live thread if there is one, the one updated last |
| ReportTheorems.BacklogKeepsTheNewestExactlyWhenItShows | review-bot/review_bot/bot/review_runner.py:2870-2926 | the backlog entry is the newest live thread if and only if that one belongs in the backlog |
| ReportTheorems.OlderThreadStandsIn | review-bot/review_bot/bot/review_runner.py:2886-2916 | a reopened finding is listed as resolved when an older thread of it is |
| Ranking.CompareCandidates | review-engine/review_engine/retrieve/rerank.py:57-77 | the loop over the tie breakers computes the comparison |
| Ranking.PrecedesExactlyWhenAhead | review-engine/review_engine/retrieve/rerank.py:57-136 | a candidate compares as no greater if and only if it has the greater measure, or the lesser id, at the first breaker that tells the two apart, or, without one, the greater score or the same score and no greater id |
| Ranking.ScoreThenId | review-engine/review_engine/retrieve/rerank.py:71-77 | without tie breakers the greater score goes first, and at one score the lesser id, a record without an id standing by its rule number |
| Ranking.ComparatorIsTotalPreorder | review-engine/review_engine/retrieve/rerank.py:57-136 | for every tie-breaker list, known or not, the comparator orders totally and transitively |
| Ranking.CompareIsAntisymmetric | review-engine/review_engine/retrieve/rerank.py:57-136 | swapping the candidates turns the sign |
| Ranking.TiesShareTheirId | review-engine/review_engine/retrieve/rerank.py:71-77 | only candidates with the same id compare equal |
| Text.LeIsDictionaryOrder | review-engine/review_engine/retrieve/rerank.py:71-76 | the order of ids is that of a dictionary: one begins the other, or has the smaller character where they first differ |
| Ranking.TierRankIsLastPlace | review-engine/review_engine/retrieve/rerank.py:125-128 | a tier ranks by the last place it is listed, 0 if it is not |
| Ranking.RerankCandidates | review-engine/review_engine/retrieve/rerank.py:12-54 | filtering, scoring in place, sorting and slicing give the first topK of the ranking, also for negative topK, best first |
| Ranking.BestComeFirst | review-engine/review_engine/retrieve/rerank.py:44-77 | along the ranking every candidate is ahead of every later one in that sense, and the answer is the beginning of it, of the length the slice says |
| Ranking.BreakersAreKept | review-engine/review_engine/retrieve/rerank.py:80-136 | on the breakers that follow only agreement, an overriding record comes before others, a tier listed earlier before later ones, and boost, similarity, specificity, base score and pack weight never rise, ids never fall |
| Ranking.RankedAre | review-engine/review_engine/retrieve/rerank.py:21-42 | ranked are exactly the candidates neither excluded nor overridden, with boost, pack weight and score filled in and nothing else changed |
| Ranking.ScoreIsAMean | review-engine/review_engine/retrieve/rerank.py:33-42 | for components between 0 and 1 the unrounded score lies there too, and is 1 only if every component is |
| Ranking.ScoresDifferBy | review-engine/review_engine/retrieve/rerank.py:33-42 | between candidates of one tier and boost, unrounded scores differ by 36, 16, 18, 10 and 7 hundredths of what similarity, pack weight, base score, severity and specificity differ by |
| Ranking.RankingIsCanonicalExactlyWhenNothingTies | review-engine/review_engine/retrieve/rerank.py:44-54 | the ranking ignores input order if and only if no two different candidates tie |
| Ranking.TiesExactlyWhenAlike | review-engine/review_engine/retrieve/rerank.py:57-136 | two candidates compare equal exactly when they share their id, their score and every measure the listed tie breakers compare |
| Ranking.NothingTiesExactlyWhenNoneAlike | review-engine/review_engine/retrieve/rerank.py:44-136 | so the ranking ignores input order exactly when no two different scored candidates are alike in these |
| Ranking.DistinctIdsNeverTie | review-engine/review_engine/retrieve/rerank.py:71-77 | distinct ids suffice |
| Ranking.TwinsBreakCanonicity | review-engine/review_engine/retrieve/rerank.py:44-77 | two records with one id and equal scores tie under every tie-breaker list, so their order is the input order |
| Ranking.FilterAfterRankIsRankOfFiltered | review-engine/review_engine/retrieve/search.py:166-177 | dropping the inapplicable after ranking is ranking only the applicable |
| Ranking.BestApplicable | review-engine/review_engine/retrieve/search.py:156-177 | the pipeline gives the best topK of the applicable candidates, best first: its inner cut never truncates |
| Ranking.AnswerIgnoresRetrievalOrder | review-engine/review_engine/retrieve/search.py:156-177 | for distinct ids the answer ignores the order of retrieval |
| Resolution.ApplyPolicy | review-engine/review_engine/ingest/rule_loader.py:292-317 | the rule-major passes in place give each record its per-record resolution |
| Resolution.ResolveRecords | review-engine/review_engine/ingest/rule_loader.py:288-333 | the three lists are the resolved records, with their ids filled in, that are active, reference, excluded, in input order |
| Resolution.ListsPartition | review-engine/review_engine/ingest/rule_loader.py:319-333 | every record is in exactly one list, as often as it came |
| Resolution.ExcludedExactlyWhenTargeted | review-engine/review_engine/ingest/rule_loader.py:304-317 | a record is excluded if and only if it came so or some rule points at it, by every part of id, rule number and pack that the rule names; reference and active are decided by the record alone; a record no rule points at stays as it came |
| Resolution.LaterOverrideDecides | review-engine/review_engine/ingest/rule_loader.py:311-317 | the last override that points at a record decides all its fields, over every exclusion |
| Resolution.LaterExclusionDecides | review-engine/review_engine/ingest/rule_loader.py:304-309 | where no override points, the last exclusion that does decides |
| Resolution.MarkedExactlyWhenListed | review-engine/review_engine/ingest/rule_loader.py:293-302 | a record counts as overriding if and only if it came so or some override lists its id, or its pack and rule number if it has none |
| Resolution.ResolvingAgainChangesNothingExactlyWhen | review-engine/review_engine/ingest/rule_loader.py:288-333 | resolving a resolved record again, its id filled in by then, changes nothing if and only if filling the id in first would have resolved it the same; always so for a record that came with an id |
| Resolution.UnnamedRecordChanges | review-engine/review_engine/models.py:287-288 | a record without an id is resolved as active, and resolved again as excluded, by an exclusion of the id it gets |
| RateLimit.RateLimiter.Check | review-bot/review_bot/api/main.py:462-470 | a request is accepted if and only if the full log has fewer than 100 accepted in the closed window that ends now; other clients are untouched |
| RateLimit.RateLimiter.constructor | review-bot/review_bot/api/main.py:38-38 | the limiter starts empty |
| RateLimit.NoWindowOverflows | review-bot/review_bot/api/main.py:462-470 | over every run with a clock that never goes back, no closed 60 seconds hold more than 100 accepted requests of a client |
| RateLimit.RefusedExactlyWhenFull | review-bot/review_bot/api/main.py:467-468 | a request is refused if and only if exactly 100 were accepted in the window that ends now |
| RateLimit.BucketCounts | review-bot/review_bot/api/main.py:464-467 | after evicting, a deque's length is what the full log has in the window |

## Left out

- GitLab, the local platform, the engine's HTTP interface, queues and routes: remote threads, posting outcomes and resolve failures are arbitrary inputs of the phases.
- Failures that abort a phase before its commit, and the retries that follow.
- SQLAlchemy: rows are kept as sequences; what remains is unique keys and the difference between committed and in-memory rows. Timestamps a phase writes to its rows are not modelled, so a thread's update time is an input of the report.
- Session.ReviewSession: the row lists are fields that methods reassign element by element, so two objects for the same row are not modelled; the session keeps one object per row.
- Session.ReviewSession.ExecuteDetect: collecting feedback and updating the request's metadata are left out; the decisions found are an input.
- Session.ReviewSession.ExecuteSync: collecting feedback and the run's final status are left out.
- Session.ReviewSession.ExecutePublish: publication rows, batch numbers and failure records are left out; which decisions are settled before posting, and how each post goes, are inputs.
- Threads: an event keeps its thread, kind and reason; the commit ranges and payloads it also records are left out.
- SHA-1 and SHA-256: a body hash is an opaque string, equal when the stored string is.
- LLM drafts, comment text, prompts and metrics: a draft's title, category and body hashes are inputs.
- Anchors: `classify_issue` and the keyword tables are arbitrary predicates on a line.
- Threads: whether a diff touches an anchor is an arbitrary set of threads; the comparison of diffs behind it is not modelled.
- Publication: whether a draft is published at all, and the verification of drafts, are decided before the model starts.
- Text: digits are the ten ASCII ones, where a Python pattern also accepts other decimal digits.
- Report: an entry keeps its fingerprint, section and thread; titles, scores and reasons are left out, and so are the run's status fields.
- Feedback: finding a command in a reply's text is an input of the event row.
- Ranking: rounding and the pattern boost are arbitrary functions; scores are real numbers.
- Ranking.RerankCandidates: works on values, so that the caller's candidates also receive the scores is not modelled.
- Resolution.ResolveRecords: the derived fields a record recomputes when it is validated again, besides its id (authority, priority, embedding text), are left out; a record without a pack, which making one fills in, is not modelled.
- RateLimit: a clock that goes back is not modelled.
- Language detection, both registries, storage, embeddings and similarity search.
- The circuit breaker, score bounds, truncation helpers and rate percentages: easy members.
