# Verified model of the MySQL/NDB exporter's engines

The exporter answers a Prometheus request by running a set of scrapers against a MySQL
server. Most scrapers copy columns into metrics; this project models the parts that
compute, remember, synchronise or transform text, and proves what they are for.

| files | part of the exporter |
|---|---|
| `disk_write_counters.dfy`, `disk_write_task.dfy`, `disk_write_runs.dfy`, `disk_write_accounting.dfy` | the disk-write-speed background task: a ticker goroutine that turns the server's sliding per-second history into running counters |
| `histogram.dfy`, `histogram_error.dfy`, `time_track_stats.dfy`, `query_response_time.dfy` | histograms: artificial sums, in-place cumulation, the two ndbinfo collectors, the one-pass variant |
| `exporter.dfy`, `scraper_filter.dfy` | one scrape: concurrent scraper goroutines on one channel, and which scrapers a request gets |
| `excluded_schemas.dfy`, `mariadb_gtid.dfy`, `sanitize.dfy`, `text.dfy` | text: SQL literal lists, GTID positions, name sanitizers |
| `processlist.dfy`, `processlist_sent.dfy`, `tallies.dfy`, `sorting.dfy` | processlist aggregation and sorted emission |
| `decimals.dfy`, `server_version.dfy`, `node_status.dfy` | numbers made by printing "a.b" and parsing it back |
| `words.dfy`, `sequences.dfy`, `outcomes.dfy` | 64- and 32-bit words, sequences, options and results |

Conventions. Code that updates variables, maps or objects is a method or class, proved
equal to a function of its inputs and old state; what the code promises is then proved
about that function. `uint64` and `uint32` wrap (`Words.Add64`, `Words.Add32`). Ranging over
a Go map takes an arbitrary remaining key at each turn, so results hold for every
iteration order. Floating-point numbers are reals. A channel is the sequence of what was
sent on it. Query results arrive as sequences of rows, with a flag for a failing scan.

Interleavings are step relations. `DiskWriteRuns` runs any number of task goroutines
against `Scrape` calls, each step atomic; `Exporter` runs the collecting goroutine and one
goroutine per spawned scraper.

Results that may surprise a reader of the code:

- The running flag of the background task is set by the task itself, so a `Scrape` that
  comes between spawning and that assignment starts a second task. Runs without such a
  `Scrape` ("prompt" runs) are exactly the ones with at most one live task
  (`PromptIffOneTaskAtATime`).
- A task can be left ticking on a nil connection (`UnpromptRunLosesTheConnection`). Over all
  runs, every tick finds a connection exactly when no task's deferred function runs while
  another task is ticking (`TicksFindAConnectionIff`), and finds its own task's exactly when
  no connection is published then either (`TicksFindTheirOwnIff`). Prompt runs meet both.
- A failure can be wiped out before any `Scrape` returns it (`UnpromptRunDropsAnError`).
  Every failure is returned once or still pending exactly when no tick is taken while an
  error is pending (`FailuresReturnedOnceIff`). Prompt runs meet this too.
- No second is lost or counted twice exactly when successful ticks are one window apart
  (`EachSecondOnceIffSpaced`); for any other tick times the counters weigh each second by
  how many ticks covered it (`CountersWeighSeconds`): ticks at 1 and 3 with windows of one
  second miss a second, ticks at 2 and 3 with windows of two count one twice
  (`UnevenTicksMiscount`).
- The version gate compares the first digit of the minor version: 8.10 counts as older
  than 8.4 (`TwoDigitMinorIsMisjudged`, exact condition in `GateIsVersionOrderIff`, its
  effect on what a request reports in `ReportedByVersionIff`).
- The one-pass histogram differs from the cumulated one as soon as a row without a length
  that counts something precedes a bucket (`StreamingIsBatchIff`, `TooLongInFrontDiffers`).
- `sanitizeState` is idempotent except on states made of deleted characters only: ";" becomes
  empty and an empty state becomes "unknown" (`SanitizeStateIdempotentIff`,
  `DeletedStateIsNotFixed`).
- Start phases 1, 10 and 100 are shown as the same number (`SamePhaseIff`).

## Model

| member | source | states |
|---|---|---|
| DiskWriteTask.BackgroundTask.Add | collector/ndbinfo_disk_write_speed.go:42-52 | whatever order the update is ranged over in, the counter map becomes the key-wise sum of both |
| DiskWriteTask.BackgroundTask.TaskScrape | collector/ndbinfo_disk_write_speed.go:133-172 | a failing query or scan yields its error and no update; otherwise each key that occurs gets the total of its first intervalSecs rows, and no other key anything |
| DiskWriteTask.BackgroundTask.BeginTask | collector/ndbinfo_disk_write_speed.go:175-177 | the started goroutine, not its spawner, sets the running flag |
| DiskWriteTask.BackgroundTask.OpenConnection | collector/ndbinfo_disk_write_speed.go:187-192 | success publishes the connection, failure only leads to the deferred function |
| DiskWriteTask.BackgroundTask.TickOnce | collector/ndbinfo_disk_write_speed.go:197-208 | a failed tick records its error and ends the loop, a good one clears the error and merges the update |
| DiskWriteTask.TickMeaning | collector/ndbinfo_disk_write_speed.go:197-208 | in terms of the query alone: a refused query or failing scan records its error and ends the loop; an answered one clears the error and increases each key by its first cap rows |
| DiskWriteTask.BackgroundTask.ExitTask | collector/ndbinfo_disk_write_speed.go:178-182 | the deferred function clears flag and connection, also another task's |
| DiskWriteTask.BackgroundTask.ScrapeOnce | collector/ndbinfo_disk_write_speed.go:231-254 | spawns if the flag is off, returns and clears a pending error, else sends for every key once its backup and LCP bytes and then its redo bytes |
| DiskWriteCounters.InterleavingIrrelevant | collector/ndbinfo_disk_write_speed.go:147-170 | a tick's update depends only on each key's own rows in order, not on how keys interleave |
| DiskWriteCounters.ProjectConcat | collector/ndbinfo_disk_write_speed.go:147-170 | a row counts for its own key only, and each key keeps the order of its rows |
| DiskWriteCounters.FoldPerKey | collector/ndbinfo_disk_write_speed.go:42-52 | a key of the folded map is present iff some update had it, and holds the total of its updates |
| DiskWriteCounters.TotalIsExactModulo | collector/ndbinfo_disk_write_speed.go:45-47 | wrapping at each addition is the exact sum modulo 2^64 |
| DiskWriteCounters.FoldOrderIrrelevant | collector/ndbinfo_disk_write_speed.go:42-52 | permuting the updates leaves the counters unchanged |
| DiskWriteRuns.CountersAreFoldOfUpdates | collector/ndbinfo_disk_write_speed.go:197-207 | over every run of ticks, failures, restarts and scrapes the counters are the fold of the successful ticks' updates |
| DiskWriteRuns.UpdatesAreCappedFeeds | collector/ndbinfo_disk_write_speed.go:133-172 | the updates of a run are, one by one, the capped updates of the rows its own answered ticks streamed |
| DiskWriteRuns.CountersIgnoreTickOrder | collector/ndbinfo_disk_write_speed.go:197-207 | two runs with the same updates in any order end with the same counters |
| DiskWriteRuns.CountersNeverDecrease | collector/ndbinfo_disk_write_speed.go:42-52 | along every run a counter that does not overflow is exact and never decreases |
| DiskWriteRuns.PromptRunsKeepLifecycle | collector/ndbinfo_disk_write_speed.go:175-210 | every prompt run keeps the life-cycle invariant: one live task, flag and connection agreeing with it, pending errors only when it is ending |
| DiskWriteRuns.PromptIffOneTaskAtATime | collector/ndbinfo_disk_write_speed.go:232-236 | at no time two live tasks iff no Scrape reads the flag between a spawn and its task's first statement |
| DiskWriteRuns.TicksFindAConnectionIff | collector/ndbinfo_disk_write_speed.go:178-181 | over all runs, prompt or not: at every moment every tick finds a connection iff no deferred function clears it while a task is ticking |
| DiskWriteRuns.TicksFindTheirOwnIff | collector/ndbinfo_disk_write_speed.go:178-192 | over all runs: at every moment every tick finds the connection its own task opened iff no task opens or drops one while a task is ticking |
| DiskWriteRuns.TicksFindTheirConnection | collector/ndbinfo_disk_write_speed.go:133 | prompt runs meet both conditions, so there a connection is set only while running and every tick finds its own task's |
| DiskWriteRuns.UnpromptRunLosesTheConnection | collector/ndbinfo_disk_write_speed.go:177-181 | a concrete run that breaks both conditions and leaves a task ticking on a nil connection |
| DiskWriteRuns.FailuresCounted | collector/ndbinfo_disk_write_speed.go:199-206 | over all runs as many ticks fail as errors are returned by Scrape, pending, or dropped by a tick taken while they were pending |
| DiskWriteRuns.FailuresReturnedOnceIff | collector/ndbinfo_disk_write_speed.go:238-243 | over all runs the errors of the failed ticks are, in order, those returned by Scrape plus the pending one, iff no tick is taken while an error is pending |
| DiskWriteRuns.EachFailureReturnedOnce | collector/ndbinfo_disk_write_speed.go:238-243 | prompt runs meet that condition, so they lose no failure |
| DiskWriteRuns.UnpromptRunDropsAnError | collector/ndbinfo_disk_write_speed.go:199-206 | a concrete run with two ticking tasks in which no Scrape can return the failure any more |
| DiskWriteRuns.NextScrapeReturnsTheFailure | collector/ndbinfo_disk_write_speed.go:201-206 | the next Scrape returns the failure, and starts a new task iff the failed one has run its deferred function by then |
| DiskWriteAccounting.TickAddsOneWindow | collector/ndbinfo_disk_write_speed.go:56-64 | on newest-first rows a tick adds the seconds of one window, as wide as the cap or the kept history |
| DiskWriteAccounting.WindowsBySecond | collector/ndbinfo_disk_write_speed.go:156-169 | adding up windows is adding up seconds, each as often as a tick covers it |
| DiskWriteAccounting.CountersWeighSeconds | collector/ndbinfo_disk_write_speed.go:197-207 | for any run whose ticks stream what the server holds at their times, a counter is the sum of its bytes per second times the number of ticks covering that second |
| DiskWriteAccounting.EachSecondOnceIffSpaced | collector/ndbinfo_disk_write_speed.go:194-197 | every second between first window and last tick is covered exactly once iff successive ticks are one window apart |
| DiskWriteAccounting.UnevenTicksMiscount | collector/ndbinfo_disk_write_speed.go:194-197 | concrete tick times that miss a second, and others that count one twice |
| DiskWriteAccounting.ExactlyOnce | collector/ndbinfo_disk_write_speed.go:147-170 | for any run whose ticks stream what the server holds, cap seconds apart and with enough history, after n ticks a counter is the sum over exactly the last Multiple(n, cap) seconds |
| Words.MultipleIsProduct | collector/ndbinfo_disk_write_speed.go:147-170 | Multiple(n, cap) is n * cap |
| Histogram.ArtificialSum | collector/ndbinfo.go:51-58 | the loop computes the sum over all buckets of middle times count |
| Histogram.MakeCumulative | collector/ndbinfo.go:61-67 | the bucket map is updated in place to the cumulated one, for any bound table |
| Histogram.CumulateMeaning | collector/ndbinfo.go:60-67 | with distinct bounds, bound i holds the counts at bounds 0..i modulo 2^64, every bound becomes a key, other keys stay |
| Histogram.DifferencesUndoCumulate | collector/ndbinfo.go:60-67 | differences of neighbouring buckets give back the raw counts, overflow or not |
| Histogram.CumulateExact | collector/ndbinfo.go:60-67 | without overflow bucket i is the exact number of observations up to bound i, no less than the bucket before it, and the last one is the number of all observations |
| Histogram.ArtificialSumByParts | collector/ndbinfo.go:49-58 | the artificial sum equals its summation-by-parts form over the cumulated buckets |
| HistogramError.ArtificialSumError | collector/ndbinfo.go:49-58 | for every set of observations the raw buckets count, true and artificial sum differ by at most half a bucket width per observation |
| HistogramError.ArtificialSumErrorAttained | collector/ndbinfo.go:49-58 | for every raw map some observations reach that bound, so it is the best one |
| TimeTrackStats.TablesIncrease | collector/ndbinfo_tc_time_track_stats.go:49 | both bound tables increase strictly from a bound that is not negative, with 32 and 20 bounds |
| TimeTrackStats.TCBoundsGrow | collector/ndbinfo_tc_time_track_stats.go:49 | the 32 bounds start at 50, each one and a half times the one before without its fraction |
| TimeTrackStats.PGMANBoundsDouble | collector/ndbinfo_pgman_time_track_stats.go:41 | the 20 bounds are zero, 16 doubled up to 2^21, and the largest 32-bit number |
| TimeTrackStats.Record | collector/ndbinfo_tc_time_track_stats.go:159-162 | a cell goes to its node's own map, made fresh when the node is new |
| TimeTrackStats.Fill | collector/ndbinfo_tc_time_track_stats.go:150-208 | after the rows every (column, node) pair that occurs has its own, unshared map with that column's counts |
| TimeTrackStats.RawHoldsTheLast | collector/ndbinfo_tc_time_track_stats.go:150-208 | the cell of a (node, bound) is its own column's count in the last row that has them |
| TimeTrackStats.EmitOne | collector/ndbinfo_tc_time_track_stats.go:211-215 | the sum is taken from raw counts, then the map is cumulated and sent itself |
| TimeTrackStats.EmitColumn | collector/ndbinfo_tc_time_track_stats.go:210-216 | each node's histogram is sent once, and later ones leave it as it was sent |
| TimeTrackStats.Emit | collector/ndbinfo_tc_time_track_stats.go:210-279 | cumulating one column's maps never changes another column's, sent or unsent |
| TimeTrackStats.ScrapeTC | collector/ndbinfo_tc_time_track_stats.go:122-282 | ten histograms per node, each from its own column, with a sum within half a bucket width per observation of the true one; for clean rows each has exactly the 32 bounds as buckets, never decreasing, and its count is its last bucket and the sum of its raw column |
| TimeTrackStats.ScrapePGMAN | collector/ndbinfo_pgman_time_track_stats.go:84-162 | four histograms per node, each from its own column, with a sum within half a bucket width per observation of the true one; for clean rows each has exactly the 20 bounds as buckets, never decreasing, and its count is its last bucket and the sum of its raw column |
| TimeTrackStats.Scrape | collector/ndbinfo_pgman_time_track_stats.go:104-161 | a failing scan sends nothing; otherwise exactly one right histogram per column and node |
| TimeTrackStats.HistogramCountsTheColumn | collector/ndbinfo_tc_time_track_stats.go:210-216 | for distinct cells on table bounds without overflow, buckets never decrease and last bucket, count and sum of the raw column agree |
| TimeTrackStats.SentCountsItsColumn | collector/ndbinfo_tc_time_track_stats.go:210-216 | a histogram that was sent for clean rows has the bounds as buckets, never decreasing, and counts exactly its raw column |
| TimeTrackStats.SentSumIsNear | collector/ndbinfo_tc_time_track_stats.go:211-215 | the sum that is sent differs from the true sum of any observations the raw cells count by at most half a bucket width each |
| TimeTrackStats.CountSent | collector/ndbinfo_tc_time_track_stats.go:210-279 | one histogram for each column and node is width times the number of nodes |
| TimeTrackStats.BucketsAreTheTableIff | collector/ndbinfo_pgman_time_track_stats.go:132-138 | the buckets are exactly the table's bounds iff the node's rows use no other bound |
| QueryResponseTime.ProcessTable | collector/info_schema_query_response_time.go:74-98 | one pass yields running count, running total and the running-count buckets; a failing scan yields no histogram |
| QueryResponseTime.TotalsConcat | collector/info_schema_query_response_time.go:86-87 | count (modulo 2^64) and sum of two lists of rows are those of the lists added up; TotalsOfOne gives a single row's |
| QueryResponseTime.TotalsIgnoreOrder | collector/info_schema_query_response_time.go:86-87 | permuting the rows changes neither the reported count nor the reported sum |
| QueryResponseTime.SumWithinLengths | collector/info_schema_query_response_time.go:87 | if each row's total lies between its lower and upper length times its count, the reported sum lies between the two weighted sums |
| QueryResponseTime.BucketKeys | collector/info_schema_query_response_time.go:90-93 | there is a bucket for every length that occurs except zero |
| QueryResponseTime.BucketValue | collector/info_schema_query_response_time.go:86-93 | a bucket holds the count of all rows up to the last one of its length, those without a length included |
| QueryResponseTime.StreamingIsBatchIff | collector/info_schema_query_response_time.go:86-93 | for distinct lengths the one-pass buckets are the cumulated raw counts iff rows without length count nothing before any bucket |
| QueryResponseTime.TooLongInFrontDiffers | collector/info_schema_query_response_time.go:86-93 | two concrete rows on which one-pass and cumulated buckets differ |
| QueryResponseTime.BucketsWithinCount | collector/info_schema_query_response_time.go:86-98 | without overflow no bucket exceeds the reported count |
| QueryResponseTime.LastBucketAndTooLong | collector/info_schema_query_response_time.go:88-93 | with rows without length at the end, last bucket plus their counts is the reported count |
| Exporter.InvariantAlways | collector/exporter.go:172-224 | every interleaving keeps each goroutine's part of the channel a prefix of its script and the phases in step with close and wait |
| Exporter.ClosedAfterAllScrapers | collector/exporter.go:188-203 | once the database is closed every spawned scraper has finished and none can step |
| Exporter.SpawnedInOrder | collector/exporter.go:204-209 | goroutines are spawned for exactly the scrapers that pass the version gate, in list order |
| Exporter.UpIsLast | collector/exporter.go:172-175 | a finished run has closed what it opened, and mysql_up is its last metric and its only mysql_up |
| Exporter.CompleteProjections | collector/exporter.go:209-221 | in every complete run a scraper's part of the channel is its metrics, one success flag, one duration |
| Exporter.EachSendsItsPart | collector/exporter.go:209-221 | element by element: an eligible scraper sends its samples in order, also when it fails, then its success flag, then its duration; the collecting goroutine sends the connection duration and mysql_up, or mysql_up 0 alone |
| Exporter.ConnectionIsFirst | collector/exporter.go:196-198 | in every run the connection duration is the first thing on the channel, or mysql_up 0 if the server is down |
| Exporter.CompleteRunsSendTheSame | collector/exporter.go:202-223 | all complete interleavings send the same multiset of metrics |
| Exporter.FailuresAreIsolated | collector/exporter.go:215-218 | what one scraper does changes neither another's part of the channel nor mysql_up |
| Exporter.DownSendsOnlyUp | collector/exporter.go:184-196 | a failed connection or ping sends mysql_up 0 and nothing else |
| Exporter.NoDeadlock | collector/exporter.go:202-224 | some goroutine can step in every reachable state before the end |
| Exporter.RunsAreBounded | collector/exporter.go:202-224 | every schedule is finite, so every scrape comes to its end |
| Exporter.Collect | collector/exporter.go:172-224 | whatever goroutine the scheduler picks each time, the channel ends up with each scraper's samples, flag and duration, nothing of an ineligible one, and mysql_up last |
| ScraperFilter.FilterScrapers | mysqld_exporter.go:157-177 | the request gets the scrapers it names, or all if it names none of them |
| ScraperFilter.SelectConcat | mysqld_exporter.go:166-171 | filtering keeps order and multiplicity: it distributes over concatenation |
| ScraperFilter.EnabledScrapers | mysqld_exporter.go:323-330 | the scrapers whose flag is set, as a subsequence of the sorted list |
| ScraperFilter.FilteredAre | mysqld_exporter.go:157-177 | a scraper is kept iff it is enabled and named, or enabled when no enabled one is named; order is kept |
| ScraperFilter.ParamOrderIrrelevant | mysqld_exporter.go:162-165 | order and repetition of the parameters do not matter |
| ScraperFilter.SpawnedSoFar | collector/exporter.go:204-209 | at every moment of every run the goroutines spawned are, in order, those of the passed scrapers that meet the version gate |
| ScraperFilter.SpawnOrderIsSorted | mysqld_exporter.go:282-284 | what a complete run spawns for a request is, in order, the filtered scrapers that meet the gate, a subsequence of the sorted list |
| ScraperFilter.ReportedIff | collector/exporter.go:204-219 | success flags are sent for exactly the enabled scrapers the request selects that pass the version gate |
| ScraperFilter.ReportedByVersionIff | collector/exporter.go:200-219 | with server version M.m and threshold T.t a success flag is sent iff the scraper is selected and (M, first digit of m) is at or above (T, t) |
| ExcludedSchemas.BuildExcludedSchemasList | collector/perf_schema_events_statements.go:363-373 | read as a list of SQL literals, the text is the three defaults and then each new extra name once, for any names |
| ExcludedSchemas.FirstOccurrencesOnce | collector/perf_schema_events_statements.go:366-371 | no name is listed twice, and more names never change the order of the earlier ones |
| ExcludedSchemas.ReadJoined | collector/perf_schema_events_statements.go:366-372 | quoting, doubling and joining any names reads back as those names |
| ExcludedSchemas.QuoteInjective | collector/perf_schema_events_statements.go:366-367 | different names have different literals, so comparing literals compares names |
| ExcludedSchemas.DefaultsQuoted | collector/perf_schema_events_statements.go:148 | the three default literals are the quoted default names |
| MariaDBGtid.ParseMariaDBGtid | collector/slave_status.go:150-180 | one metric per entry of three parts with a 64-bit number, in order |
| MariaDBGtid.EntryParsesIff | collector/slave_status.go:156-167 | for all texts an entry gives one metric iff it is two dash-free labels and an unsigned 64-bit number joined by dashes, and none otherwise |
| MariaDBGtid.ParseSingle | collector/slave_status.go:155 | a text without a comma is one entry |
| MariaDBGtid.ParseConcat | collector/slave_status.go:155-167 | parsing x + "," + y is parsing x and then y, for all texts |
| MariaDBGtid.ParseSound | collector/slave_status.go:156-167 | whatever the text, parsed labels hold no comma or dash and numbers fit in 64 bits |
| MariaDBGtid.RoundTripIff | collector/slave_status.go:155-178 | printing and parsing returns a list iff its labels have no comma or dash and its numbers fit in 64 bits |
| MariaDBGtid.ParseNormalizes | collector/slave_status.go:155-178 | printing what was parsed and parsing again changes nothing |
| Sanitize.AnyOrderSubstitutes | collector/info_schema_processlist.go:194-196 | every visiting order of the replacement map is one left-to-right substitution |
| Sanitize.ReplaceEach | collector/engine_tokudb.go:92-94 | the loop over the map in arbitrary order computes that substitution |
| Sanitize.SanitizeState | collector/info_schema_processlist.go:179-198 | the result is the substitution of the lower-cased state and holds no key and no upper-case letter |
| Sanitize.SanitizeConcat | collector/info_schema_processlist.go:179-198 | sanitizing two non-empty texts one after the other is sanitizing each |
| Sanitize.SanitizeCapital | collector/info_schema_processlist.go:183 | each of the 26 capital letters becomes its own small letter |
| Sanitize.SanitizeCharacter | collector/info_schema_processlist.go:184-196 | six characters vanish, space and dash become an underscore, any other character that is no capital stays |
| Sanitize.SanitizeTokudbMetric | collector/engine_tokudb.go:80-96 | the result is the substitution and holds no key |
| Sanitize.TokudbCharacterwise | collector/engine_tokudb.go:80-96 | the TokuDB sanitizer works character by character: five vanish, space and dash become an underscore, plus and slash become "and", others stay |
| Sanitize.SanitizedEmptyIff | collector/info_schema_processlist.go:180-196 | the result is empty iff the state is not and has only deleted characters |
| Sanitize.SanitizeStateIdempotentIff | collector/info_schema_processlist.go:179-198 | sanitizing twice is sanitizing once iff the state is empty or has a character that survives |
| Sanitize.DeletedStateIsNotFixed | collector/info_schema_processlist.go:180-196 | ";" is sanitized to the empty state, the empty state to "unknown" |
| Processlist.Aggregator.AddRow | collector/info_schema_processlist.go:130-155 | after each row all four maps hold, for exactly the keys that occur, the sum over exactly the rows that sanitize to them |
| Processlist.Aggregator.AddState | collector/info_schema_processlist.go:137-153 | both nested maps get the cell if missing and are increased at it alone |
| Processlist.Aggregator.AddHostAndUser | collector/info_schema_processlist.go:145-155 | both flat maps get the key if missing and are increased at it alone |
| Processlist.Aggregator.SendStates | collector/info_schema_processlist.go:158-163 | the nested loops send count and time of each (command, state) once, along the sorted list of pairs |
| Processlist.TalliedMaps | collector/info_schema_processlist.go:158-174 | what is sent from the four maps is the sorted list of cells of the rows |
| Processlist.SendHosts | collector/info_schema_processlist.go:165-169 | each host is sent once, in ascending order |
| Processlist.SendUsers | collector/info_schema_processlist.go:170-174 | each user is sent once, in ascending order |
| Processlist.Scrape | collector/info_schema_processlist.go:125-176 | what is sent is a function of the rows: every cell, the sum over exactly its rows, in ascending order, hosts and users as flagged; a failing scan sends nothing |
| ProcesslistSent.SentIffDue | collector/info_schema_processlist.go:119-174 | a metric is sent iff its command and state, host or user occurs in the rows and its value is the sum modulo 2^32 of the count, or time, fields of exactly those rows; a missing host is "unknown" |
| ProcesslistSent.SentInOrder | collector/info_schema_processlist.go:158-174 | everything is sent in strictly ascending order: by command and state, count before time, then hosts, then users |
| Processlist.NothingLostInTheMaps | collector/info_schema_processlist.go:119-174 | counts sent by state, by host and by user each add up to the rows' counts modulo 2^32, seconds to the rows' times |
| Tallies.CellIsExactModulo | collector/info_schema_processlist.go:152-155 | a cell is the exact sum over its rows modulo 2^32 |
| Tallies.CellsAddUp | collector/info_schema_processlist.go:152-155 | cells listed once each add up to all rows, for any grouping key |
| Sorting.Sorted | collector/info_schema_processlist.go:158-159 | whatever order the keys are found in, the result is the one ascending list of them |
| Sorting.SortedUnique | collector/info_schema_processlist.go:158-166 | under any strict order a set of keys has one ascending list |
| Sorting.LessIsLexicographic | collector/info_schema_processlist.go:158-166 | a proper beginning of a text comes before it, and otherwise the first differing character decides |
| ServerVersion.GateComparesLeadingDigit | collector/instance.go:59-65 | for every version and one-digit threshold the gate compares (major, first digit of minor) lexicographically |
| ServerVersion.VersionNumber | collector/instance.go:59 | major version plus the minor one divided by ten to the number of its digits |
| ServerVersion.GateIsVersionOrderIff | collector/exporter.go:200-207 | the gate is the true version order except exactly for equal majors and a longer minor whose first digit is below the threshold's |
| ServerVersion.TwoDigitMinorIsMisjudged | collector/instance.go:59 | 8.10 is gated as older than 8.4 |
| Decimals.ParsePrintedPair | collector/instance.go:59 | a printed "a.b" always parses, to a plus the fraction spelled by b |
| Decimals.PrintedPairValue | collector/instance.go:59 | its value is a plus b divided by ten to the number of digits of b |
| Decimals.FractionIsValue | collector/instance.go:59 | n digits behind the point are their number divided by ten to the n |
| Decimals.DigitCount | collector/instance.go:59 | a number printed with d digits is below ten to the d and, unless zero, not below ten to the d - 1 |
| Decimals.SameFractionIff | collector/ndbinfo_nodes.go:84-87 | two positive numbers spell the same fraction iff one is the other times a power of ten |
| NodeStatus.StartingNumber | collector/ndbinfo_nodes.go:84-88 | a positive start phase gives 2 plus the phase divided by ten to the number of its digits |
| NodeStatus.StartingIsBetween | collector/ndbinfo_nodes.go:80-90 | every positive start phase lies strictly between STARTING and STARTED |
| NodeStatus.NumberIsDocumented | collector/ndbinfo_nodes.go:46 | for every phase the whole part is the number the help text gives the status, and only a positive start phase adds a fraction |
| NodeStatus.UnknownIsMinusOne | collector/ndbinfo_nodes.go:101-103 | a status gives -1 iff it is none of the nine documented ones, whatever the phase |
| NodeStatus.SamePhaseIff | collector/ndbinfo_nodes.go:84-88 | two positive phases give the same number iff one is the other times a power of ten |
| NodeStatus.NumberTellsStatus | collector/ndbinfo_nodes.go:74-104 | two known statuses never share a number, whatever the phases |

## Left out

- Scrape methods of the other collectors: query, scan, one metric per column; there is nothing to prove beyond the code.
- SQL execution, connection pooling, contexts and timeouts, the Prometheus client, HTTP handlers, logging and flags: I/O and libraries.
- Configuration loading (`config/config.go`): its substance is in libraries.
- The verbose part of the disk-write-speed `Scrape` (its second query): copies columns.
- Memory model of the background task: its steps are atomic here; data races between single reads and writes of the shared variables are not modelled.
- DiskWriteAccounting.ExactlyOnce: time is whole seconds and the server answers at the tick; the newest, possibly unfinished second is taken as complete.
- Exporter.CompleteRunsSendTheSame: clock readings are not part of the modelled metrics, so durations are compared by label only.
- The DSN options of the exporter's `New`, errors of closing the database, and the reader of the channel, which is taken to receive whatever is sent.
- Histogram.ArtificialSum: reals instead of float64, so rounding is not modelled.
- TimeTrackStats.Fill: the ten (or four) named maps are a sequence of maps indexed by column.
- QueryResponseTime.ProcessTable: parsing of the two texts happens before; a text that is no number counts as zero.
- ExcludedSchemas.BuildExcludedSchemasList: literals are read as in the SQL standard; a server mode in which a backslash escapes a character is not modelled.
- MariaDBGtid.ParseMariaDBGtid: the sequence number stays an integer; its conversion to float64, and the four labels (master host and UUID, channel and connection name) that are the same for every entry of one call, are not modelled.
- Sanitize.SanitizeState: lower-casing covers ASCII letters only.
- Sorting.Sorted: strings are compared by character; for valid UTF-8 that is Go's byte order.
- ServerVersion.GateComparesLeadingDigit: exact decimals instead of float64; the version regular expression is not part of this model.
- The finite tables of status names (membership, transporters, table distribution) other than `ndbinfo.nodes`.
