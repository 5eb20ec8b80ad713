# A verified model of the repair-assistant app's small logic cores

The repository is a coffee-machine repair assistant: a React front end, an
Express back end, and a few maintenance scripts. This project models, in
Dafny, the parts of it that hold logic of their own and proves what they
promise:

- **Patcher scripts.** `add_imports.py` inserts two import lines, each after
  the first line holding an anchor (`AnchorInsert`). `add_theme.py` applies
  six ordered literal `str.replace` rules (`Replace`).
- **Serial-number parsing.** `parseSerialNumber` in `utils/machineUtils.ts`
  maps a serial number to a machine model (`MachineUtils`).
- **Video job service.** The job table of
  `backend/src/services/videoJobService.ts` covers job creation, claiming,
  completion, failure, retry, the dead-letter queue (DLQ), redrive, and the
  metrics snapshot. It is a class (`VideoJobs.JobTable`) whose methods update
  the `jobs` and `dlq` sequences in place.
- **HTTP metrics.** `backend/src/middleware/httpMetrics.ts` provides the
  status classes, the latency histogram and its percentiles, and the
  per-method, per-class and per-route counters updated by the middleware. It
  also builds the route list of the snapshot, sorted busiest first
  (`HttpMetrics`, with the class `MetricsState`).
- **Environment check script.** `scripts/verify-env.js` holds the `.env` line
  parser and the missing/placeholder classifier (`VerifyEnv`).
- **Auto-commit script.** `scripts/auto-commit.js` covers
  `generateCommitMessage` (file categories, header precedence, file list) and
  the line handling of `getModifiedFiles` (`AutoCommit`).
- **Back-end configuration.** `backend/src/config/env.ts` covers `toBool`,
  `isPlaceholderSecret`, the allowed-origin list, the service-key fallback,
  and the production check that throws (`EnvConfig`).

Shared helpers:

- `Strings` holds:
  - JavaScript `trim` and `\s` over the ECMAScript white-space and
    line-terminator code points;
  - literal substring search;
  - ASCII case mapping;
  - single-character `split` and `join`;
  - decimal printing.
- `Seqs` holds `filter`/`map` and the subsequence relation.
- `Wrappers` holds `Option` and `Result`.

Conventions:

- Times are integer milliseconds.
- A `null`/`undefined` result is `None`; a thrown error is `Err`.
- Values the code cannot see are parameters. These are the clock, `randomUUID`,
  the provider's answer, and the contents of files or git output.

## Model

| member | source | states |
|---|---|---|
| AnchorInsert.FirstMatch | add_imports.py:8-9 | the index of the first line containing the anchor (or the length); no earlier line contains it |
| AnchorInsert.InsertAfterFirst | add_imports.py:8-11 | the loop inserts the new line right after the first matching line and stops; no match leaves the list unchanged |
| AnchorInsert.AddImports | add_imports.py:8-17 | the two passes in order, the second searching the list the first produced |
| AnchorInsert.NoMatchIsNoOp | add_imports.py:8-11 | the list comes back unchanged exactly when no line holds the anchor |
| AnchorInsert.SpliceShape | add_imports.py:9-10 | with the first match at k the result is one longer, equal up to k, the new line at k+1, the rest shifted |
| AnchorInsert.OriginalLinesKept | add_imports.py:10 | deleting the inserted line (which follows an anchor line) gives the input back |
| AnchorInsert.FirstMatchOnly | add_imports.py:11 | later matching lines get no insertion; they only move down by one |
| AnchorInsert.AnchorSurvives | add_imports.py:9-10 | after an insertion the anchor is still found, and the list grew by one |
| AnchorInsert.StillFound | add_imports.py:14-17 | the first insertion keeps any line the second pass looks for |
| AnchorInsert.ImportsGrowByTwo | add_imports.py:8-17 | with both anchors present, the pass adds two lines and leaves both anchors findable |
| AnchorInsert.ImportsNotIdempotent | add_imports.py:8-17 | running the pass on its own output adds two more lines: it is not idempotent |
| Replace.ReplaceAll | add_theme.py:8-11 | the definition of Python's `str.replace` (every non-overlapping occurrence, left to right; the empty pattern interleaves); its laws are the lemmas below |
| Replace.ApplyRules | add_theme.py:8-40 | the definition of the rule pass: each rule applied to the previous one's output, in list order |
| Replace.ThemeApplied | add_theme.py:1-46 | the definition of the script's effect: the six rules of the script, in its order, on the file's content |
| Replace.NoMatchLeavesText | add_theme.py:8-40 | a content holding none of the rules' search texts passes through all the rules unchanged |
| Replace.AbsentIsNoOp | add_theme.py:8-11 | a rule whose search text does not occur leaves the content unchanged |
| Replace.CountPositiveWhenPresent | add_theme.py:8-11 | an occurring search text is counted at least once |
| Replace.LengthLaw | add_theme.py:8-11 | the length changes by the number of occurrences times the length difference |
| Replace.InterleaveLength | add_theme.py:8-11 | the empty-pattern case inserts the replacement at each of the len+1 positions |
| Replace.ReplacesOccurrence | add_theme.py:8-11 | the leftmost occurrence is replaced and the text before it is kept |
| Replace.ReplacesEveryOccurrence | add_theme.py:8-11 | example: `"abab".replace("ab", "x")` replaces both occurrences (the general law is ReplacesOccurrence) |
| Replace.LiteralMatching | add_theme.py:8-11 | the search text is literal; regex metacharacters have no meaning |
| Replace.ApplyRulesAppend | add_theme.py:8-40 | applying rules in sequence composes: the rules run in list order |
| Replace.ApplyTwo | add_theme.py:8-17 | the first two rules run wrap-then-close |
| Replace.OrderMatters | add_theme.py:8-40 | swapping two rules can change the result |
| Replace.IdempotentWhenExhausted | add_theme.py:8-40 | re-running a rule changes nothing once its search text is gone from the output |
| Replace.NotIdempotentInGeneral | add_theme.py:8-40 | a single rule is not idempotent in general |
| Replace.HeaderRuleRewrites | add_theme.py:20-23 | the header rule rewrites the original header line into the dark-mode one |
| Replace.CloseWithoutOpen | add_theme.py:8-17 | without the opening text, the first two rules amount to the closing rule |
| Replace.OpenWithoutClose | add_theme.py:8-17 | without the closing text, they amount to the opening rule |
| MachineUtils.Sanitize | utils/machineUtils.ts:12 | the definition of the clean-up (whitespace removed, upper-cased); its properties are SanitizeShape and SanitizeIdempotent |
| MachineUtils.ParseSerialNumber | utils/machineUtils.ts:8-49 | an accepted serial is the sanitised input, at least 6 long, with one of the three models |
| MachineUtils.SanitizeShape | utils/machineUtils.ts:12 | the sanitised serial has no whitespace and no lower-case ASCII letter |
| MachineUtils.SanitizeIdempotent | utils/machineUtils.ts:12 | sanitising twice is sanitising once |
| MachineUtils.ShortIsRejected | utils/machineUtils.ts:9-17 | empty input, or fewer than 6 characters once sanitised, gives null |
| MachineUtils.CodeDecides | utils/machineUtils.ts:21-38 | a mapped code at index 5 decides the model |
| MachineUtils.FallbackDecides | utils/machineUtils.ts:40-48 | otherwise CS200/CS220 give Gemini, then ZN100 gives Zenius, else null |
| MachineUtils.ReparseIsStable | utils/machineUtils.ts:8-49 | re-parsing an accepted serial gives the same result |
| VideoJobs.ConfiguredMaxAttempts | backend/src/services/videoJobService.ts:119-125 | a finite value of at least 1 is floored; anything else gives the default 3; never below 1 |
| VideoJobs.FindJobIndex | backend/src/services/videoJobService.ts:132 | the first index with the id, or -1 when no job has it |
| VideoJobs.FindDlqIndex | backend/src/services/videoJobService.ts:315 | the first DLQ index for the job, or -1 |
| VideoJobs.JobTable.GetJob | backend/src/services/videoJobService.ts:180-183 | a job is returned exactly when some job has the id, and it is a stored job with that id |
| VideoJobs.FirstEligible | backend/src/services/videoJobService.ts:206-208 | the first queued job that is due; none earlier is |
| VideoJobs.JobTable.constructor | backend/src/services/videoJobService.ts:89-98 | a fresh table is empty |
| VideoJobs.JobTable.UpdateJob | backend/src/services/videoJobService.ts:127-145 | unknown id: nothing changes; else the first job with the id is replaced by the updater applied to it with the new updatedAt |
| VideoJobs.JobTable.CreateJob | backend/src/services/videoJobService.ts:147-178 | an existing preferred id returns that job unchanged; otherwise a queued job with 0 attempts is appended |
| VideoJobs.JobTable.ClaimJob | backend/src/services/videoJobService.ts:185-201 | only an eligible job is claimed: running, attempts+1, startedAt kept or set, nextRunAt cleared |
| VideoJobs.JobTable.ClaimNextJob | backend/src/services/videoJobService.ts:203-221 | the first eligible job in table order is claimed; none eligible gives null |
| VideoJobs.JobTable.MarkOperation | backend/src/services/videoJobService.ts:223-234 | running, operation stored, the given operationName used, the old one kept when none is given |
| VideoJobs.JobTable.MarkCompleted | backend/src/services/videoJobService.ts:236-248 | completed, result stored, operation kept when none given, completedAt set |
| VideoJobs.JobTable.MarkFailed | backend/src/services/videoJobService.ts:250-262 | failed, error and lastError set, completion time set |
| VideoJobs.JobTable.ScheduleRetry | backend/src/services/videoJobService.ts:264-278 | queued again with nextRunAt = now + waitMs, error cleared, lastError kept |
| VideoJobs.JobTable.MoveToDlq | backend/src/services/videoJobService.ts:280-329 | the job is marked failed; its DLQ entry replaces the old one or is appended |
| VideoJobs.JobTable.RedriveFromDlq | backend/src/services/videoJobService.ts:375-407 | needs a DLQ entry and the job; resets it to queued with 0 attempts and drops its DLQ entries |
| VideoJobs.JobTable.RefreshStatus | backend/src/services/videoJobService.ts:409-439 | only a running job with an operation name is probed; done completes it; a provider error fails it |
| VideoJobs.ClaimNextClaimsFirstEligible | backend/src/services/videoJobService.ts:203-221 | with unique ids, the id lookup finds exactly the first eligible job |
| VideoJobs.CreateKeepsIdsUnique | backend/src/services/videoJobService.ts:155-175 | appending a job with a fresh id keeps ids unique |
| VideoJobs.ClaimedIsNotEligible | backend/src/services/videoJobService.ts:194-200 | a claimed job is running, has one more attempt, and cannot be claimed again |
| VideoJobs.RetryWaits | backend/src/services/videoJobService.ts:269-277 | a retried job becomes claimable exactly at now + waitMs |
| VideoJobs.RedrivenIsFresh | backend/src/services/videoJobService.ts:391-402 | a redriven job is claimable at once and contributes no retries |
| VideoJobs.FinishedIsNotEligible | backend/src/services/videoJobService.ts:236-262 | failed, completed and dead-lettered jobs are never claimable |
| VideoJobs.UpsertKeepsOnePerJob | backend/src/services/videoJobService.ts:315-320 | after an upsert there is exactly one entry for the job and at most one per job |
| VideoJobs.RemoveDropsOnlyThatJob | backend/src/services/videoJobService.ts:403 | removal drops every entry of the job and keeps the others in order |
| VideoJobs.RemoveKeepsOnePerJob | backend/src/services/videoJobService.ts:403 | removal keeps at most one entry per job |
| VideoJobs.RemoveSubset | backend/src/services/videoJobService.ts:403 | every remaining entry was in the DLQ before |
| VideoJobs.Snapshot | backend/src/services/videoJobService.ts:336-373 | the definition of the metrics snapshot; its consistency is SnapshotConsistent |
| VideoJobs.JobTable.MetricsAt | backend/src/services/videoJobService.ts:336-373 | the table's snapshot: the status counts partition the jobs, an oldest-queued age exactly when a job is queued, throughput at most the completed count, dlqSize the DLQ length |
| VideoJobs.StatusCountsSum | backend/src/services/videoJobService.ts:363-367 | queued + running + completed + failed counts equal the number of jobs |
| VideoJobs.OldestQueuedIsMinimum | backend/src/services/videoJobService.ts:340-350 | the oldest-queued time exists iff a job is queued, and it is the least createdAt among queued jobs |
| VideoJobs.SnapshotConsistent | backend/src/services/videoJobService.ts:336-373 | the four status counts partition the jobs, the oldest-queued age exists iff a job is queued and is non-negative, throughput is at most the completed count, dlqSize is the DLQ length |
| VideoJobs.ThroughputBounded | backend/src/services/videoJobService.ts:352-358 | recent throughput never exceeds the completed count |
| VideoJobs.RetriesAfterUpdate | backend/src/services/videoJobService.ts:360 | rewriting one job changes the retry total by that job's own change |
| VideoJobs.ClaimCountsRetry | backend/src/services/videoJobService.ts:194-200 | claiming a job that already ran adds one retry; a first claim adds none |
| HttpMetrics.ToStatusClass | backend/src/middleware/httpMetrics.ts:46-51 | each class holds exactly its range of codes, in both directions |
| HttpMetrics.ErrorsAreTheErrorClasses | backend/src/middleware/httpMetrics.ts:99-114 | a code is 4xx or 5xx exactly when the route error counter counts it (code >= 400) |
| HttpMetrics.CreateHistogram | backend/src/middleware/httpMetrics.ts:23-30 | a valid, all-zero histogram whose last bound is +Infinity |
| HttpMetrics.FirstFit | backend/src/middleware/httpMetrics.ts:64-69 | the first bucket whose bound is at least the duration; none earlier fits |
| HttpMetrics.BucketTotalUpdate | backend/src/middleware/httpMetrics.ts:66 | replacing one bucket changes the total by that bucket's change |
| HttpMetrics.FirstFitIs | backend/src/middleware/httpMetrics.ts:64-69 | the loop's exit index is the first fitting bucket |
| HttpMetrics.ObservedKeepsValid | backend/src/middleware/httpMetrics.ts:59-70 | in a valid histogram every duration fits some bucket (the last is unbounded) and counting it keeps the histogram valid |
| HttpMetrics.ObserveLatency | backend/src/middleware/httpMetrics.ts:59-70 | count+1, sum+d, max raised, exactly the first fitting bucket incremented, validity kept |
| HttpMetrics.Reach | backend/src/middleware/httpMetrics.ts:77-82 | the first bucket where the running count reaches count·p; none before it does |
| HttpMetrics.PercentileOf | backend/src/middleware/httpMetrics.ts:72-85 | the definition of the percentile value, against which ToPercentile is proved; PercentileFound states where it lies |
| HttpMetrics.ToPercentile | backend/src/middleware/httpMetrics.ts:72-85 | the loop returns the specified percentile value |
| HttpMetrics.PrefixAll | backend/src/middleware/httpMetrics.ts:77-79 | the running count over all buckets is the bucket total |
| HttpMetrics.PrefixShift | backend/src/middleware/httpMetrics.ts:77-79 | the running count splits off the first bucket |
| HttpMetrics.PercentileFound | backend/src/middleware/httpMetrics.ts:72-85 | on a valid non-empty histogram a percentile of at most 100% is found inside the buckets, never by the fallthrough |
| HttpMetrics.MedianOfOneObservation | backend/src/middleware/httpMetrics.ts:23-85 | an empty histogram of the middleware's eight-bound layout (as createHistogram builds it) puts one 120 ms observation in the 250 ms bucket, stays valid, and reports 250 as its median |
| HttpMetrics.RouteIndex | backend/src/middleware/httpMetrics.ts:105 | the route's position, or -1 when no entry has that key |
| HttpMetrics.InsertKeepsEntries | backend/src/middleware/httpMetrics.ts:140 | an insertion step adds exactly one entry and loses none |
| HttpMetrics.InsertKeepsOrder | backend/src/middleware/httpMetrics.ts:140 | an insertion step keeps the list sorted busiest first |
| HttpMetrics.SortByRequests | backend/src/middleware/httpMetrics.ts:140 | the definition of the sort (insertion, busiest first); its correctness is SortByRequestsCorrect |
| HttpMetrics.SortByRequestsCorrect | backend/src/middleware/httpMetrics.ts:140 | the route list is sorted by requests, descending, and is a permutation of the routes |
| HttpMetrics.Summaries | backend/src/middleware/httpMetrics.ts:124-139 | one summary per route, in map order |
| HttpMetrics.MetricsOf | backend/src/middleware/httpMetrics.ts:105-109 | the stored or fresh counters of a route are valid when all stored ones are |
| HttpMetrics.UpsertedKeepsValid | backend/src/middleware/httpMetrics.ts:117 | Map.set keeps keys unique, stores the value under the key and keeps every other entry |
| HttpMetrics.RecordRoute | backend/src/middleware/httpMetrics.ts:103-117 | the route (fresh counters for a new one, appended) gets requests+1, errors+1 exactly for codes >= 400, and the duration observed: latency count+1, sum+d, max raised to d, and exactly the first bucket covering d incremented; other routes kept, validity kept |
| HttpMetrics.MetricsState.constructor | backend/src/middleware/httpMetrics.ts:32-44 | zero counters, the four status classes at 0, no routes |
| HttpMetrics.MetricsState.OnRequest | backend/src/middleware/httpMetrics.ts:89-93 | total and in-flight +1, the method's count +1, nothing else changes |
| HttpMetrics.MetricsState.OnFinish | backend/src/middleware/httpMetrics.ts:95-118 | in-flight -1 but never below 0, the status class +1, the route list one longer exactly for a new route, and the route's counters recording the response as RecordRoute states (requests, errors, latency count, sum, max and bucket) |
| HttpMetrics.MetricsState.RouteSnapshots | backend/src/middleware/httpMetrics.ts:123-140 | the snapshot routes, busiest first, a permutation of the route summaries |
| HttpMetrics.MetricsState.UptimeSeconds | backend/src/middleware/httpMetrics.ts:144 | whole seconds since start, rounded down: r*1000 <= elapsed ms < (r+1)*1000 |
| HttpMetrics.InsertKeepsBounded | backend/src/middleware/httpMetrics.ts:140 | an insertion step keeps errors <= requests on every entry |
| HttpMetrics.SortKeepsBounded | backend/src/middleware/httpMetrics.ts:140 | sorting keeps errors <= requests on every entry |
| HttpMetrics.SnapshotErrorsBounded | backend/src/middleware/httpMetrics.ts:111-140 | every route in the snapshot has no more errors than requests |
| VerifyEnv.ParseLine | scripts/verify-env.js:35-40 | the definition of the line parser; its meaning is ParseLineMeaning and its round trip ParseFormatted |
| VerifyEnv.ParseAll | scripts/verify-env.js:34-36 | one parse result per line, in order |
| VerifyEnv.LoadLines | scripts/verify-env.js:34-42 | the forEach builds exactly the fold of the parsed lines |
| VerifyEnv.LoadEnv | scripts/verify-env.js:31-44 | the content is cut at newline characters and folded |
| VerifyEnv.CommentsAndBlanksSkipped | scripts/verify-env.js:35-36 | blank and `#` lines contribute nothing |
| VerifyEnv.ParseLineMeaning | scripts/verify-env.js:35-40 | a line is an assignment iff trimmed it is non-empty, not a comment and has a non-empty text before its first `=`; key and value are the trimmed texts around that `=` |
| VerifyEnv.ParseTrimmedMeaning | scripts/verify-env.js:36-40 | the same, for an already trimmed line |
| VerifyEnv.KeyIsNonEmpty | scripts/verify-env.js:37-39 | a parsed key is non-empty and holds no `=` |
| VerifyEnv.ParseFormatted | scripts/verify-env.js:35-39 | round trip: `key=value` parses back to that key and value, `=` inside values included |
| VerifyEnv.ParseTrimmedFormatted | scripts/verify-env.js:37-39 | the same round trip on a trimmed line |
| VerifyEnv.EnvOfSnoc | scripts/verify-env.js:34-42 | one more line applies its assignment to the result so far |
| VerifyEnv.LaterOverrides | scripts/verify-env.js:39 | a later assignment overrides the key; a skipped line changes nothing |
| VerifyEnv.LastSetting | scripts/verify-env.js:34-42 | the last line setting the key; none later does |
| VerifyEnv.LastAssignmentWins | scripts/verify-env.js:34-42 | a key is set iff some line sets it, and its value is the last such line's |
| VerifyEnv.CheckEnvVars | scripts/verify-env.js:47-69 | both lists are exactly the specified selections of the required names |
| VerifyEnv.Classification | scripts/verify-env.js:51-65 | missing iff required and absent or empty; placeholder iff required, set, placeholder-looking and not NODE_ENV/PORT; never both |
| VerifyEnv.IsPlaceholder | scripts/verify-env.js:55-64 | the definition of a reported placeholder; Classification states it both ways |
| VerifyEnv.ReportKeepsOrder | scripts/verify-env.js:51-65 | both lists keep the required order |
| VerifyEnv.EmptyAssignmentIsMissing | scripts/verify-env.js:39-53 | a final `KEY=` line makes a required KEY missing |
| VerifyEnv.PortIsExempt | scripts/verify-env.js:58-63 | PORT=development is reported neither missing nor placeholder |
| AutoCommit.Classify | scripts/auto-commit.js:70-87 | the chosen category's test holds for the file (ClassifyIsFirstMatch adds that no earlier one does) |
| AutoCommit.ClassifyIsFirstMatch | scripts/auto-commit.js:70-87 | a file goes to the first category in the chain whose test it passes |
| AutoCommit.GroupFiles | scripts/auto-commit.js:57-87 | every category's list is the files of that category, in input order |
| AutoCommit.EachFileInOneCategory | scripts/auto-commit.js:70-87 | every file is in exactly one category list |
| AutoCommit.StripTrailingSlashes | scripts/auto-commit.js:109 | basename ignores trailing slashes: a prefix with no final `/` |
| AutoCommit.AfterLastSlash | scripts/auto-commit.js:109 | the position after the last `/` |
| AutoCommit.BaseName | scripts/auto-commit.js:109 | the base name holds no `/` |
| AutoCommit.LastDot | scripts/auto-commit.js:109 | the position of the last `.` |
| AutoCommit.ExtName | scripts/auto-commit.js:109 | the extension is a suffix of the segment |
| AutoCommit.SegmentParts | scripts/auto-commit.js:108-110 | for one segment: name + extension is the segment, the extension holds one `.` and starts with it, a dotfile keeps its whole name |
| AutoCommit.NameAndExtension | scripts/auto-commit.js:108-110 | name + extension is the base name; the extension starts at the last dot; a dotfile keeps its whole name |
| AutoCommit.AtMostTwoNames | scripts/auto-commit.js:108-112 | the description names the first two component files, or the only one |
| AutoCommit.HasIsNonEmpty | scripts/auto-commit.js:94-123 | a category's list is non-empty iff some file is in it |
| AutoCommit.Decide | scripts/auto-commit.js:90-123 | the definition of the header's type, scope and description; CommitPrecedence and CatchAllHeader state it |
| AutoCommit.CommitPrecedence | scripts/auto-commit.js:94-123 | each type and scope both ways: test iff tests or e2e present, scope e2e iff e2e, unit iff tests without e2e, docs, config, components, context, hooks, feat iff components/context/hooks under no higher category, refactor iff utils alone |
| AutoCommit.CatchAllHeader | scripts/auto-commit.js:119-122 | `chore: update files` (no scope) exactly when every file is in the "other" category |
| AutoCommit.ScopeName | scripts/auto-commit.js:90-123 | the scope text is empty exactly for the no-scope case |
| AutoCommit.TypeName | scripts/auto-commit.js:90-123 | every commit type's text is non-empty and holds no `(` or `:`, so the header's type ends where the scope or the colon begins |
| AutoCommit.ScopeInParentheses | scripts/auto-commit.js:126-127 | the header starts with the type's text and has `(` right after it exactly when the scope is non-empty |
| AutoCommit.LinesHaveNoNewline | scripts/auto-commit.js:130-134 | list items and the "more files" line hold no newline |
| AutoCommit.ItemsHaveNoNewline | scripts/auto-commit.js:130-133 | no list item holds a newline |
| AutoCommit.FileListLines | scripts/auto-commit.js:130-136 | the file list reads back as at most five items plus the extra line exactly when there are more than five files |
| AutoCommit.LongFileList | scripts/auto-commit.js:130-134 | more than five files: five items then the "... and N more files" line |
| AutoCommit.CommitMessage | scripts/auto-commit.js:125-137 | the message starts with the commit type's text |
| AutoCommit.GenerateCommitMessage | scripts/auto-commit.js:56-137 | the method builds exactly the specified message |
| AutoCommit.MatchPorcelain | scripts/auto-commit.js:47-51 | a capture is a suffix of the line after at least the two status characters and one space, and holds no line terminator |
| AutoCommit.GetModifiedFiles | scripts/auto-commit.js:28-53 | as written: every returned path is non-empty |
| AutoCommit.GetModifiedFilesFixed | scripts/auto-commit.js:28-53 | as corrected: every returned path is non-empty |
| AutoCommit.MatchEntryLine | scripts/auto-commit.js:47-51 | a well-formed `XY path` line is kept and yields its path |
| AutoCommit.PathsOfEntryLines | scripts/auto-commit.js:45-52 | the filter/map/filter chain gives every entry's path, in order |
| AutoCommit.FixedReturnsEveryPath | scripts/auto-commit.js:43-53 | with only trailing whitespace removed, every listed path comes back |
| AutoCommit.JoinLastChar | scripts/auto-commit.js:46 | a join ends with the last piece's last character |
| AutoCommit.FirstUnstagedFileDropped | scripts/auto-commit.js:28-53 | as written, a listing whose first entry is ` M path` yields no path; the corrected version yields it |
| AutoCommit.AsWrittenDropsFirst | scripts/auto-commit.js:28-53 | the as-written half of that discrepancy |
| AutoCommit.TrimmedListing | scripts/auto-commit.js:30 | trimming the whole output strips the first line's leading status space |
| AutoCommit.ShiftedLineDropped | scripts/auto-commit.js:47-52 | the shifted line `M path` does not match and yields no path |
| EnvConfig.Text | backend/src/config/env.ts:70-72 | `v \|\| ''` is non-empty exactly when v is set and non-empty |
| EnvConfig.ToBool | backend/src/config/env.ts:7-10 | unset or empty gives the fallback; otherwise true iff the lower-cased value is 1, true, yes or on |
| EnvConfig.ToBoolIgnoresCase | backend/src/config/env.ts:9 | the flag's meaning does not depend on letter case |
| EnvConfig.ToBoolIgnoresFallback | backend/src/config/env.ts:8-9 | a set, non-empty flag never uses the fallback |
| EnvConfig.IsPlaceholderSecret | backend/src/config/env.ts:12-13 | the definition of the marker test; MarkerMakesPlaceholder and DigitsAreNotPlaceholders state it |
| EnvConfig.MarkerMakesPlaceholder | backend/src/config/env.ts:12-13 | any text containing a marker, in any letter case, is a placeholder |
| EnvConfig.DigitsAreNotPlaceholders | backend/src/config/env.ts:12-13 | an all-digit value is never a placeholder |
| EnvConfig.AllowedOrigins | backend/src/config/env.ts:31-35 | no entry is empty; with the variable unset or empty the list is the frontend URL, if non-empty |
| EnvConfig.OriginsAreWellFormed | backend/src/config/env.ts:31-35 | entries from the variable are trimmed and hold no comma |
| EnvConfig.OriginsRoundTrip | backend/src/config/env.ts:31-35 | a comma-joined list of well-formed origins reads back as that list |
| EnvConfig.TrimmedPieces | backend/src/config/env.ts:33 | split-then-trim of such a list gives the list |
| EnvConfig.TrimAll | backend/src/config/env.ts:33 | trimming already trimmed origins changes nothing |
| EnvConfig.ServiceKey | backend/src/config/env.ts:37 | SUPABASE_SERVICE_KEY when set and non-empty, else the role key or ''; empty exactly when neither is set |
| EnvConfig.ProductionFailures | backend/src/config/env.ts:46-54 | the five guarded pushes build exactly the specified failure list |
| EnvConfig.FailuresMeaning | backend/src/config/env.ts:46-54 | a name is reported iff it is one of the five and its check fails; at most five |
| EnvConfig.SupabaseUrlOnlyNeedsPresence | backend/src/config/env.ts:51 | a set SUPABASE_URL is never reported, even a placeholder-looking one |
| EnvConfig.MessageNamesEveryFailure | backend/src/config/env.ts:56-59 | the error message contains every failing name |
| EnvConfig.AppEnvOf | backend/src/config/env.ts:63-74 | trustProxy defaults to on exactly in production; the key and the origins are the derived ones |
| EnvConfig.LoadEnv | backend/src/config/env.ts:45-74 | an error exactly in production with a failure, carrying the prefixed, comma-joined list; otherwise the config object |

## Left out

- File I/O. This covers the reads and write-backs of the patcher scripts and
  of `loadEnvFile`, plus `ensureDb`/`loadDb`/`saveDb`, JSON serialisation and
  the `writeChain` write ordering. The job table is an in-memory value.
- Process-level code: `main`, console output and `process.exit`.
- The git `exec` calls of the auto-commit script. The porcelain output and the
  file list are parameters.
- The video worker, the provider calls and the HTTP clients are external. Their
  answers are parameters (`Probe`).
- Clocks are parameters, and so are `randomUUID` and the DLQ entry id.
  Timestamps are integer milliseconds instead of ISO strings; an unparsable
  date is not modelled.
- `listVideoDlqEntries` is left out: it only returns the DLQ.
- VideoJobs.JobTable: every service call (CreateJob, ClaimJob, ClaimNextJob,
  MarkOperation, MarkCompleted, MarkFailed, ScheduleRetry, MoveToDlq,
  RedriveFromDlq, RefreshStatus, UpdateJob) runs as one atomic step. In the
  source each call awaits `loadDb`, and `updateJobInDb` loads the file again
  without re-checking what the first read saw; `writeChain` orders only the
  file writes. Interleaving between `loadDb` and `saveDb` is not modelled, so
  two concurrent claims of one job, or lost updates between concurrent
  read-modify-write calls, are outside the model; ClaimedIsNotEligible holds
  under this atomic reading only.
- HttpMetrics.ObserveLatency: durations are whole milliseconds. The source's
  floating-point `hrtime` duration is not modelled.
- HttpMetrics.ToPercentile: the percentile is an exact ratio, so the
  floating-point product `count * percentile` is not modelled.
- The snapshot's `avg`, `toFixed` rounding and the per-minute throughput are
  floating point and are not modelled.
- `normalizePath` is regular-expression rewriting and is not modelled. The
  route key is built from the path as given, including the `baseUrl` prefix.
- HttpMetrics.MetricsState.RouteSnapshots: it states sortedness and
  permutation, not stability (equal counts keep their map order). The
  insertion sort used is stable, but that is not proved.
- The route `Map` (`byRoute`) is a sequence of entries in insertion order.
  `byMethod` and `byStatusClass` are Dafny maps, so the insertion order that
  `Object.fromEntries` exposes in the snapshot's `byMethod` and
  `byStatusClass` objects is not modelled. The histogram is a value that
  `ObserveLatency` returns, not an object mutated through an alias.
- Zod schema validation (URL and enum checks, coercion, defaults) is left out.
  The configuration takes the already-parsed values.
- The deprecation `console.warn` for SUPABASE_SERVICE_ROLE_KEY is left out.
- Strings are sequences of Unicode code points, while JavaScript's `.length`,
  `charAt` and `substring` count UTF-16 code units. A character outside the
  Basic Multilingual Plane (an emoji, say) is one element here and two code
  units there, so MachineUtils.ParseSerialNumber's length check and its
  index-5 lookup, and every other length or index in the model, agree with
  the source only on text made of Basic Multilingual Plane characters.
- Upper- and lower-casing are ASCII-only. Unicode case mapping (`toUpperCase`
  in `parseSerialNumber`, `toLowerCase` in `toBool`) is not modelled.
- For `isPlaceholderSecret` ASCII-only casing is exact. A case-insensitive
  expression without the `u` flag never matches a non-ASCII character against
  an ASCII one.
- `loadEnvFile` stores keys in a plain object. JavaScript's special
  `__proto__` key is not modelled; the object is a map.

## Findings

| source | as written | input that shows it | evidently intended | confidence | as-written member | corrected member |
|---|---|---|---|---|---|---|
| scripts/auto-commit.js:28-53 | `execQuiet` trims the whole `git status --porcelain` output, so the first line loses its leading status space and `/^..\s+(.+)$/` no longer matches the path | a listing whose first entry is ` M path` (changed in the working tree only, e.g. ` M src/App.tsx\n`): the path is dropped | remove only trailing whitespace, so every listed path is returned | not executed | AutoCommit.AsWrittenDropsFirst | AutoCommit.FixedReturnsEveryPath |
