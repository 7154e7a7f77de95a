# Verification of the desktop client's core

The repository is a PostgreSQL desktop client: a Rust back end with a TypeScript front end. Most of
it is input, output and user interface; this project models the parts that hold state or do
arithmetic, in the form the code has them, and proves what they promise over every input and every
run. `dafny verify dfyconfig.toml` checks everything.

| cluster | modules |
|---|---|
| civil dates and timestamp text | `CivilDate`, `Timestamp`, `Decimal` |
| tail of a child process's stderr | `Utf8`, `StderrTail` |
| admission to the MCP server | `Windows`, `RateLimiting`, `Base64Url`, `McpServer`, `McpRuns`, `McpAnswers`, `McpContext` |
| bounded history of health snapshots | `Snapshots` |
| limiter of the front end's diagnostics | `Diagnostics` |
| migration discovery, selection and apply loop | `Discovery`, `DiscoveryOrder`, `DiscoveryExact`, `DiscoveryFiles`, `ApplyMigrations`, `MigrationRun`, `MigrationResume` |
| credentials, rows and pools of connections | `Keychains`, `CopyName`, `Lifecycle`, `LifecycleRuns`, `LifecycleMeans` |
| backup schedules and the user's crontab | `Text`, `CronExpression`, `Crontab`, `CrontabMarkers`, `CrontabLaws`, `Scheduler`, `SchedulerLaws`, `SchedulerRuns`, `SchedulerLines`, `SchedulerOrphans`, `SchedulerMeans`, `SchedulerCases` |

Objects that change state in the program are classes here; their methods are proved against
functions on values, and the results are proved about runs of those functions. Instants are
integers. What the program learns from outside (the clock, the keychain backend, the database, the
file system, a tool's outcome, the hash function) is an argument of the step that asks for it, so a
claim about every argument covers every way the outside can behave, failures included.

## Where the code and its own words differ

- The comment at `src-tauri/src/migrations/discovery.rs:178-179` has the text order of versions right
  for `9999` and `10000`. It is not (`TenThousandPrecedes9999`). A directory is listed in numeric
  order exactly when its versions sort as text as they do by their significant digits
  (`NumericOrderExactly`); for versions padded to four digits and no further, exactly when none
  sorts before a narrower one (`CanonicalOrderExactly`).
- The comment at `src-tauri/src/migrations/discovery.rs:96-99` calls the displayed name of a duplicate version
  deterministic. Every entry shows the name of the first file of its version that the directory
  happens to list (`NameIsFirstListed`), which is the same for every order of the listing exactly
  when the version's files agree on the name (`NameIsStableExactly`). A duplicate's name, paths and
  checksum are all that depends on the listing's order (`DiscoverIgnoresOrder`).
- `src-tauri/benches/history_search.rs:168-170` asks for text that sorts like time. It does for the years 0000
  to 9999 and for year -0001, and the interval cannot be extended on either side
  (`SortsLikeTimeExactly`).
- The comment at `src-tauri/src/migrations/discovery.rs:43-45` has per-file problems become flags on
  entries. An up file that cannot be read fails the whole discovery, unless its version is a
  duplicate (`DiscoverFailsExactly`).
- The comment at `src-tauri/src/backup/schedule.rs:96-99` lists the forms of a cron field; a number
  may also have a plus sign and any zeros before it (`NumberExactly`).
- A layered keychain reports a store or a delete as done in cases where a later read still gives
  the stale password (`LayeredReadAfterStore` and `LayeredReadAfterDelete` say exactly when,
  `StalePasswordIsRead` gives a case).
- The comment at `src-tauri/src/connection/commands.rs:494-497` has a connect that misses its secret put
  the row right. It does; but a pool built with the lost password stays registered, so row, secret
  and pool agree again exactly when there was none (`ConnectRepairsExactly`).
- `validate_cron` takes any white space between fields, line feeds too, and such an expression
  becomes several crontab lines of which uninstalling removes one
  (`LineFeedIsAcceptedAndLeavesJunk`; `InstallAddsOnlyItsLine` says exactly when).
- Markers are found by substring, so a schedule id that begins another's id takes the other's line
  along (`StripTakesExactly`, with a case in `PrefixTakesLine`; `StepIsSoundExactly` gives the
  exact condition over both files).
- Removing a schedule that is installed leaves its line in the crontab, which goes on running it
  (`RemoveOrphans`; `StepOwnsExactly` says which operations leave such a line).
- The marker is there so that uninstalling is idempotent (`src-tauri/src/backup/installer.rs:4-7`); but each
  rewrite takes away one empty line at the end and one carriage return of every line, so on some
  texts it is not (`StripTwiceExactly` says on which, for every text; `StripTwiceDiffers` is one).
- An update sets the secret before it writes the row, so one that is refused, because of its name
  say, has changed the password all the same (`RefusedUpdateChangesPassword`; `UpdateMeans` says
  what each failure leaves).
- Changing an installed schedule does not reach the crontab: its line keeps the expression of the
  last install (`LineIsCurrentExactly`, with a case in `MovedScheduleStays`).
- A migration is reported as failed although its SQL took effect when its ledger entry cannot be
  written, when the connection is lost after the commit, or when a script without a transaction
  stops half way; applying again runs it again (`ForgottenRunsTwice`, `ApplyKeepsOnceExactly`).
- The diagnostics limiter counts 20 reports a window; over a sliding ten seconds that allows 39, or
  40 when the first report comes within ten seconds of the epoch (`AtMostThirtyNine`, `AtMostForty`, both attained).

## Model

| member | source | states |
|---|---|---|
| `CivilDate.CivilFromDaysCorrect` | src-tauri/benches/history_search.rs:185-201 | Every day number, negative ones included, becomes a date with a month from 1 to 12 and a day within that month of that year, and the inverse conversion recovers the day number |
| `CivilDate.DaysFromCivilCorrect` | src-tauri/benches/history_search.rs:185-201 | Every valid proleptic Gregorian date is the date of its own day number, so the conversion is a bijection |
| `CivilDate.CivilFromDaysFollowsCalendar` | src-tauri/benches/history_search.rs:182-201 | Day 0 is 1970-01-01 and the date of day d+1 is the calendar successor of the date of day d |
| `CivilDate.DaysFromCivilMonotone` | src-tauri/benches/history_search.rs:185-201 | Dates in calendar order have day numbers in order, and conversely |
| `CivilDate.DaysToYmdExact` | src-tauri/benches/history_search.rs:200 | Narrowing the year to 32 bits changes nothing exactly for day numbers between those of -2147483648-01-01 and 2147483647-12-31 |
| `CivilDate.EraFloors` | src-tauri/benches/history_search.rs:187-192 | The guarded truncating division is the floor, so the day of the era lies in 0..146096 for negative days too |
| `CivilDate.YearOfEraCorrect` | src-tauri/benches/history_search.rs:193-195 | The year of the era lies in 0..399 and the day of that year in 0..365, 365 only where the year that follows is a leap year |
| `Timestamp.TextOrderIsTimeOrder` | src-tauri/benches/history_search.rs:168-180 | For years -0001 to 9999 one text sorts before another exactly when its second is earlier |
| `Timestamp.SortsLikeTimeExactly` | src-tauri/benches/history_search.rs:168-180 | An interval that covers the years 0000 to 9999 is sorted like time exactly when it starts no earlier than year -0001 and ends no later than year 9999 |
| `Timestamp.YearTenThousandSortsFirst` | src-tauri/benches/history_search.rs:179 | The first second of year 10000 sorts before the second that precedes it |
| `Timestamp.YearMinusTwoSortsLater` | src-tauri/benches/history_search.rs:179 | The last second of year -0002 sorts after the second that follows it |
| `Timestamp.FourDigitYearDays` | src-tauri/benches/history_search.rs:173-178 | The years 0000 to 9999 are exactly the days -719528 to 2932896, and with year -0001 the days from -719893; narrowing the year is harmless on them |
| `Timestamp.ParseOfText` | src-tauri/benches/history_search.rs:171-180 | For the years 0000 to 9999 the text has 20 characters and the exact second can be read back from it |
| `Timestamp.TextOfParse` | src-tauri/benches/history_search.rs:179 | Every text of the right shape with a valid date and time is the text of the second it denotes |
| `StderrTail.TailBuffer.constructor` | src-tauri/src/backup/runner.rs:141-146 | A new buffer is the tail of the empty stream |
| `StderrTail.TailBuffer.PushLine` | src-tauri/src/backup/runner.rs:147-164 | Pushing byte by byte with eviction and trimming keeps the buffer equal to the last cap bytes of everything pushed, less the continuation bytes in front |
| `StderrTail.TailBuffer.IntoString` | src-tauri/src/backup/runner.rs:165-168 | The result is the lossy decoding of the tail of the whole stream |
| `StderrTail.ProcessStderrStream` | src-tauri/src/backup/runner.rs:110-130 | The text returned for any sequence of lines is the lossy decoding of the tail of those lines, each with its newline |
| `StderrTail.ByteLags` | src-tauri/src/backup/runner.rs:148-157 | While a line is pushed the buffer may lack continuation bytes that an earlier trim removed, and nothing else |
| `StderrTail.TailOfWellFormedLines` | src-tauri/src/backup/runner.rs:133-168 | With well-formed lines the tail is well-formed, decoding changes nothing, and at most three bytes of the window are given up |
| `StderrTail.TailOfAnyStream` | src-tauri/src/backup/runner.rs:147-168 | With arbitrary bytes the result is well-formed and the tail within capacity all the same |
| `Utf8.LossyExact` | src-tauri/src/backup/runner.rs:165-168 | Lossy decoding gives well-formed UTF-8 and is the identity exactly on well-formed UTF-8 |
| `Utf8.CharExactly` | src-tauri/src/backup/runner.rs:158-168 | The characters well-formed text is made of are exactly the shortest spellings of the code points, surrogates excluded, as RFC 3629 lays them out |
| `Utf8.MatchedExactly` | src-tauri/src/backup/runner.rs:165-168 | The bytes taken for ill-formed are the longest beginning they share with some character |
| `Utf8.LossyReplaces` | src-tauri/src/backup/runner.rs:165-168 | Decoding keeps well-formed text up to the first ill-formed bytes, puts one replacement character for the longest beginning of a character there or for one byte that begins none, and goes on behind |
| `Utf8.SuffixOfWellFormed` | src-tauri/src/backup/runner.rs:158-163 | Cutting well-formed text anywhere and dropping leading continuation bytes leaves well-formed text at most three bytes shorter |
| `RateLimiting.RateLimiter.Prune` | src-tauri/src/mcp/auth.rs:140-142 | Pruning drops hits older than the cutoff only, and every one at the front |
| `RateLimiting.RateLimiter.CheckAndRecord` | src-tauri/src/mcp/auth.rs:131-148 | The pruned deque decides as the full history of accepted requests would, and records exactly the accepted ones |
| `RateLimiting.PrunedCount` | src-tauri/src/mcp/auth.rs:140-143 | After pruning, the length of the deque is the number of all accepted requests in the closed last second |
| `RateLimiting.AdmittedAfterGap` | src-tauri/src/mcp/auth.rs:143-147 | A request that is admitted comes more than a second after the tenth-last accepted one |
| `RateLimiting.RecordKeepsHistory` | src-tauri/src/mcp/auth.rs:131-148 | With a clock that does not run backwards each decision keeps the accepted requests sorted and spaced, the permissive first second included |
| `RateLimiting.AtMostTenPerSecond` | src-tauri/src/mcp/auth.rs:44-48 | No closed one-second interval that starts past the first second holds more than ten accepted requests |
| `RateLimiting.TenAtOnce` | src-tauri/src/mcp/auth.rs:44-48 | A token that was quiet for more than a second gets exactly ten of any number of simultaneous requests through |
| `RateLimiting.FirstSecondIsFree` | src-tauri/src/mcp/auth.rs:133-139 | In the first second of the clock every request is let through |
| `RateLimiting.AuthState.EntryOrDefault` | src-tauri/src/mcp/auth.rs:251 | A token without a limiter gets a fresh one; every other limiter and history stays |
| `RateLimiting.AuthState.CheckRate` | src-tauri/src/mcp/auth.rs:249-253 | The decision for a token depends on that token's history alone and changes no other |
| `Windows.SpacedBoundsCount` | src-tauri/src/mcp/auth.rs:44-48 | Instants spaced so that any k+1 successive ones span more than a window number at most k in every closed interval of that length |
| `Base64Url.Encode` | src-tauri/src/mcp/auth.rs:268-293 | The index loop computes the group-by-group encoding of its whole input |
| `Base64Url.DecodeOfEncoding` | src-tauri/src/mcp/auth.rs:266-293 | The decoder of section 5 of RFC 4648 without padding undoes the encoder on every byte sequence |
| `Base64Url.EncodingInjective` | src-tauri/src/mcp/auth.rs:268-293 | Different byte sequences have different encodings |
| `Base64Url.EncodingShape` | src-tauri/src/mcp/auth.rs:270-292 | The length is 4*(n/3) plus 0, 2 or 3, and every character is in the alphabet |
| `Base64Url.TableAgrees` | src-tauri/src/mcp/auth.rs:269 | Each of the 64 characters has in the table of RFC 4648 the value at which the encoder keeps it |
| `McpServer.StepKeepsRate` | src-tauri/src/mcp/server.rs:405-408 | Each step keeps every client's accepted requests spaced and everything served among them |
| `McpServer.StepKeepsScope` | src-tauri/src/mcp/server.rs:421-429 | Each step keeps known, requesting and served clients among the issued ones, and each served request within its scope |
| `McpServer.StepKeepsAudit` | src-tauri/src/mcp/server.rs:428-446 | Each step keeps audit entries and tool runs in step, whatever else is under way |
| `McpServer.RunKeepsInvariants` | src-tauri/src/mcp/server.rs:363-490 | All three hold in every state of every run, with requests interleaved freely |
| `McpServer.AtMostTenServedPerSecond` | src-tauri/src/mcp/server.rs:397-487 | In every run each client gets at most ten tool calls and resource reads through in any closed one-second interval past the first second |
| `McpServer.AuthorizedExactlyIfKnown` | src-tauri/src/mcp/server.rs:347-403 | A request gets past authorization exactly when it is a tool call or resource read in protocol version 2.0 under the hash of a known token; any other leaves books and limiter alone |
| `McpServer.StatusTells` | src-tauri/src/mcp/server.rs:439-442 | Two audit statuses are equal exactly when both outcomes are successes or both are errors with one code |
| `McpServer.IssuedTokenWorks` | src-tauri/src/mcp/auth.rs:295-325 | A token just issued authorizes its client with the scopes granted; other tokens stand as before |
| `McpServer.RevokedTokenFails` | src-tauri/src/mcp/auth.rs:327-339 | After a client is revoked its token is refused, and every other token stands as before; revoking an unknown id changes nothing and is refused |
| `McpRuns.EverythingArrived` | src-tauri/src/mcp/server.rs:397-403 | In every run each request under way or served was, when it arrived, under the hash of its token the request of that very client in the table |
| `McpRuns.AdmissionIsExact` | src-tauri/src/mcp/server.rs:405-487 | In every run an admission serves its request exactly when the limiter has room and the client holds the scope or may read resources; it uses a slot of that client exactly when there was room, and none of any other's |
| `McpRuns.EveryToolRunIsInScope` | src-tauri/src/mcp/server.rs:397-431 | In every run every tool body was run by a client in the table when its request arrived, holding the scope the tool is registered with; resource reads had db:read |
| `McpRuns.UnknownAfterRevoke` | src-tauri/src/mcp/auth.rs:327-339 | In every run a revoked client stays out of the table until its id is issued again |
| `McpRuns.RevokedIsNotServed` | src-tauri/src/mcp/auth.rs:327-356 | In every run nothing is served to a revoked client for a request that arrived after the revocation, unless its id was issued again |
| `McpRuns.RunKeepsCalls` | src-tauri/src/mcp/server.rs:397-487 | In every run each served request has a call of its own, and a tool's call is running or has its audit entry |
| `McpRuns.EntriesTellOutcomes` | src-tauri/src/mcp/server.rs:434-446 | In every run each audit entry has the status, time and duration of the end of its own call |
| `McpRuns.AuditIsExact` | src-tauri/src/mcp/server.rs:428-446 | In every run tool runs have calls of their own, each is either running or has exactly one entry, and each entry is that of a finished run with its client, tool and outcome; refused requests and resource reads have none |
| `McpAnswers.FinishAnswers` | src-tauri/src/mcp/server.rs:434-446 | A tool's success is answered with its own text and its failure with that very error; the entry is "ok" exactly for a success and otherwise has the code of the error answered |
| `McpAnswers.AdmissionAnswers` | src-tauri/src/mcp/server.rs:405-487 | An authorized request is served exactly when there is room and it deserves it, a resource read being answered with what reading it gave; otherwise it is refused for the first reason there is, with that reason's code |
| `McpAnswers.ArrivalAnswers` | src-tauri/src/mcp/server.rs:347-403 | The public verbs are answered with what they ask for; any other request is refused with a reason and its code, or is a tool call or resource read under a known token and goes on |
| `McpAnswers.ArrivalTouches` | src-tauri/src/mcp/auth.rs:343-356 | Authorizing a request changes nothing in the client table but the time of use of that client |
| `McpAnswers.EachCallIsAnsweredOnce` | src-tauri/src/mcp/server.rs:347-490 | In every run, however requests interleave, a request is answered exactly when it has arrived and is no longer under way, and then once |
| `McpAnswers.FinishIsTold` | src-tauri/src/mcp/server.rs:434-446 | In every run the end of a tool's body answers with what the body said, and the entry it adds tells the same of a served run of that call, client and tool |
| `McpAnswers.SuccessIsServed` | src-tauri/src/mcp/server.rs:397-487 | In every run a tool call or resource read is answered with success only if it was served |
| `McpAnswers.CodesTell` | src-tauri/src/mcp/server.rs:82-100 | Which errors each JSON-RPC code stands for, all but two in the range left to servers |
| `McpContext.HandledMeans` | src-tauri/src/mcp/server.rs:347-490 | The steps of one request taken in order come to what `Dispatch` promises |
| `McpContext.ServerContext.AuthorizeRequest` | src-tauri/src/mcp/auth.rs:343-356 | The client found under the token's hash, or the error; only that client's last-used time may change |
| `McpContext.ServerContext.Arrive` | src-tauri/src/mcp/server.rs:347-403 | The part before the limiter takes the protocol's arrival step |
| `McpContext.ServerContext.Admit` | src-tauri/src/mcp/server.rs:405-428 | The part from the limiter to the tool's start, or to the end of a resource read, takes the admission step |
| `McpContext.ServerContext.Finish` | src-tauri/src/mcp/server.rs:430-446 | The end of a tool's body takes the finishing step, which adds one audit entry and answers with the outcome (`FinishAnswers`) |
| `McpContext.ServerContext.Dispatch` | src-tauri/src/mcp/server.rs:347-490 | An uninterrupted request takes its steps one after the other; a served one is answered with what the tool or resource said and its log entry agrees, any other is refused for the first reason there is |
| `Snapshots.HealthSnapshots.Save` | src-tauri/src/health/snapshots.rs:24-55 | One transaction inserts unless there is a row of the last hour or newer, and then drops that connection's rows older than 30 days |
| `Snapshots.HealthSnapshots.DeleteConnection` | src-tauri/migrations/008_health_snapshots.sql:10 | Deleting a connection deletes its rows and no other |
| `Snapshots.SaveKeepsSpread` | src-tauri/src/health/snapshots.rs:36-52 | Whatever the clock says, one save keeps a connection's rows an hour or more apart and within 30 days |
| `Snapshots.SaveLeavesOthers` | src-tauri/src/health/snapshots.rs:42-49 | Saving for one connection leaves the rows of every other alone |
| `Snapshots.SaveReadsBack` | src-tauri/src/health/snapshots.rs:36-52 | Unless the connection has a row of the last hour or newer its newest row is the one saved; of the earlier rows exactly the expired are gone |
| `Snapshots.WithoutForOthers` | src-tauri/migrations/008_health_snapshots.sql:10 | A deleted connection has no rows left and every other connection has its own |
| `Snapshots.RunIsSpread` | src-tauri/src/health/snapshots.rs:24-55 | The spread holds after every run of saves and deletions |
| `Snapshots.RowsAnHourApart` | src-tauri/src/health/snapshots.rs:21-45 | After any run with any clock readings, backward jumps included, a connection's rows ascend and are pairwise an hour or more apart |
| `Snapshots.AtMost721Rows` | src-tauri/src/health/snapshots.rs:21-52 | After any run with any clock readings a connection has at most 721 rows |
| `Snapshots.BoundAttained` | src-tauri/src/health/snapshots.rs:21-52 | Saving once an hour for 30 days leaves 721 rows |
| `Diagnostics.GlobalDiagnostics.Allow` | src/lib/diagnostics.ts:24-32 | A new window is opened more than ten seconds after the last one, and the count decides |
| `Diagnostics.GlobalDiagnostics.Report` | src/lib/diagnostics.ts:34-36 | A report is sent unless one is in flight or the window is full |
| `Diagnostics.GlobalDiagnostics.Settle` | src/lib/diagnostics.ts:37-39 | When the logger settles the guard is cleared |
| `Diagnostics.RunKeepsInv` | src/lib/diagnostics.ts:15-40 | In every run the reports that got through form a chain of windows, numbered within each, and the guard mirrors what is in flight |
| `Diagnostics.NextOpener` | src/lib/diagnostics.ts:24-32 | After at most 21 minus its number more reports, a later window has been opened |
| `Diagnostics.AtMostForty` | src/lib/diagnostics.ts:18-40 | In every run at most 40 reports get through in any closed ten-second interval |
| `Diagnostics.AtMostThirtyNine` | src/lib/diagnostics.ts:18-40 | When the first report came more than ten seconds after the epoch the bound is 39 |
| `Diagnostics.FortyAttained` | src/lib/diagnostics.ts:18-40 | A run that lets 40 reports through in a closed ten-second interval |
| `Diagnostics.ThirtyNineAttained` | src/lib/diagnostics.ts:18-40 | A run past the first ten seconds that lets 39 through |
| `Diagnostics.AtMostOneInFlight` | src/lib/diagnostics.ts:15-40 | In every run at most one report is being written at a time |
| `Discovery.ParseNameExact` | src-tauri/src/migrations/discovery.rs:35-39 | Parsing a file name yields these captures exactly when the regular expression matches with these groups |
| `Discovery.CapturesExactly` | src-tauri/src/migrations/discovery.rs:57-72 | An entry of the directory is taken up, under these captures, exactly when it is a regular file whose name the regular expression matches with them |
| `Discovery.Discover` | src-tauri/src/migrations/discovery.rs:49-181 | Both loops together compute, for any listing, the entries of the grouped files in key order, or the first error |
| `Discovery.DescribeInOrder` | src-tauri/src/migrations/discovery.rs:92-176 | The second loop takes the versions in text order and stops at the first unreadable up file |
| `Discovery.InOrderHolds` | src-tauri/src/migrations/discovery.rs:54 | The ordered map is iterated over exactly its keys, strictly increasing |
| `DiscoveryOrder.GroupedFits` | src-tauri/src/migrations/discovery.rs:54-90 | The slot of a version exists exactly when the listing has a file of it, and holds exactly its distinct names and one path of each kind present |
| `DiscoveryOrder.DescribedFlag` | src-tauri/src/migrations/discovery.rs:94-175 | Each version present gets an entry: flagged a duplicate when two names clash, an orphan when there is only a down file, unflagged otherwise |
| `DiscoveryOrder.DiscoverSorted` | src-tauri/src/migrations/discovery.rs:41-181 | One entry for each version present and no other, strictly increasing as text, each flagged as the files demand |
| `DiscoveryOrder.DiscoverIgnoresOrder` | src-tauri/src/migrations/discovery.rs:56-181 | Two listings of the same directory in any order give the same versions and flags, the same whole entries for versions that are not duplicates, and the same failure |
| `DiscoveryOrder.DiscoverDescribesFiles` | src-tauri/src/migrations/discovery.rs:94-170 | Every entry that is not a duplicate has the name of its version's files, their paths, and the checksum of the up file |
| `DiscoveryFiles.FactsAreFiles` | src-tauri/src/migrations/discovery.rs:35-39 | The versions, names and kinds that entries are flagged by are those of the regular files "version_name.up.sql" and "version_name.down.sql" of the directory |
| `DiscoveryFiles.EachFileHasItsEntry` | src-tauri/src/migrations/discovery.rs:54-175 | Each such file is found: its version has an entry, a duplicate exactly when a file of the version has another name, an orphan otherwise exactly when there is no up file, and else with the file's name and path |
| `DiscoveryFiles.PathsAreLastListed` | src-tauri/src/migrations/discovery.rs:77-175 | Every entry, duplicates included, has the paths of the last up and the last down file of its version listed, and the checksum of that up file, empty when there is none to read |
| `DiscoveryFiles.DiscoverFailsExactly` | src-tauri/src/migrations/discovery.rs:56-153 | Discovery fails exactly when an entry of the directory or the up file of a version that is not a duplicate cannot be read, with the error of the first such entry or else of the first such version |
| `DiscoveryExact.NameIsFirstListed` | src-tauri/src/migrations/discovery.rs:82-100 | For every listing, each entry shows the name of the first file of its version in the listing |
| `DiscoveryExact.NameIsStableExactly` | src-tauri/src/migrations/discovery.rs:96-100 | Every reordering of a listing shows the same name for a version exactly when the version's files agree on the name |
| `DiscoveryExact.EntryOrderExactly` | src-tauri/src/migrations/discovery.rs:178-180 | Of two entries the earlier has the smaller number exactly when it has fewer significant digits, or as many and the smaller ones, whatever the leading zeros |
| `DiscoveryExact.NumericOrderExactly` | src-tauri/src/migrations/discovery.rs:178-180 | A directory is listed in numeric order exactly when the text order of its versions agrees with that by significant digits |
| `DiscoveryExact.CanonicalOrderExactly` | src-tauri/src/migrations/discovery.rs:178-180 | For versions padded to four digits and no further, exactly when no version sorts before a narrower one |
| `DiscoveryExact.DiscoverNumericOrder` | src-tauri/src/migrations/discovery.rs:178-180 | Entries whose versions have one width are in numeric order |
| `DiscoveryExact.TenThousandPrecedes9999` | src-tauri/src/migrations/discovery.rs:178-180 | A directory with both lists the later migration first |
| `ApplyMigrations.AllPendingSelected` | src-tauri/src/migrations/commands.rs:318-321 | With unique versions AllPending selects exactly the clean pending migrations in order |
| `ApplyMigrations.RangeSelected` | src-tauri/src/migrations/commands.rs:303-317 | Range selects exactly the contiguous slice of clean pending migrations between its ends, and is refused exactly when there is none |
| `ApplyMigrations.SingleSelected` | src-tauri/src/migrations/commands.rs:287-302 | Single selects exactly the migration of that version, whatever its status, unless it has a parse error; it is not found exactly when no migration has the version |
| `ApplyMigrations.SliceSelected` | src-tauri/src/migrations/commands.rs:312-316 | Filtering the merged list by the versions of a slice of the pending ones gives that very slice |
| `ApplyMigrations.JoinedUnique` | src-tauri/src/migrations/tracking.rs:190-240 | Joining sorted files with a ledger keeps versions unique |
| `ApplyMigrations.JoinedPending` | src-tauri/src/migrations/tracking.rs:190-240 | What is pending after the join is exactly the clean files whose version the ledger lacks, in order |
| `ApplyMigrations.JoinedStatus` | src-tauri/src/migrations/tracking.rs:207-226 | After the join a clean file is pending without a ledger row, applied with one of its checksum, and dirty with another |
| `ApplyMigrations.JoinedExactly` | src-tauri/src/migrations/tracking.rs:190-240 | The joined list is in version order with one entry for each version on disk or in the ledger: the file's with what the ledger knows of it, or else the ledger's, shown as applied with its file missing |
| `MigrationRun.Database.ExecuteOne` | src-tauri/src/migrations/executor.rs:118-221 | One clean migration is done, fails or is cut short, with the ledger and the executed SQL that belong to each case |
| `MigrationRun.Database.Apply` | src-tauri/src/migrations/commands.rs:338-400 | The loop ends at some number k: each of the first k attempts got its migration done, number k did not, nothing later was touched, and what is reported and left is what belongs to that |
| `MigrationRun.ApplyStopsAtFirstFailure` | src-tauri/src/migrations/commands.rs:341-400 | Every migration before number k got done and number k did not; the executed SQL is theirs with at most its own after it. The applied list and the failed version are reported whatever failed, and the run is cut short with an error exactly when, with tracking, the ledger table is missing at number k |
| `MigrationRun.AttemptMeans` | src-tauri/src/migrations/executor.rs:118-221 | Exactly when the SQL of one migration takes effect and when its version and the checksum of the file enter the ledger, and that only the ledger table cuts a run short |
| `MigrationRun.EndIsDetermined` | src-tauri/src/migrations/commands.rs:341-400 | Where the loop stops, what it leaves and what it reports are determined by the disk, the ledger and the attempts |
| `MigrationRun.DoneMeans` | src-tauri/src/migrations/executor.rs:118-221 | An attempt gets its migration done exactly when the file can be read, with tracking the ledger lacks the version, and nothing fails up to the answer to the last write |
| `MigrationResume.LedgerAtEnd` | src-tauri/src/migrations/executor.rs:159-204 | With tracking, the ledger after a run is what it held and an entry for each migration that got done, and one more when only the answer to its entry was lost |
| `MigrationResume.AppliedIsShownApplied` | src-tauri/src/migrations/executor.rs:159-204 | With tracking and unchanged files, after a run of any mode each migration of the applied list is shown as applied the next time |
| `MigrationResume.PendingAfterRun` | src-tauri/src/migrations/commands.rs:338-400 | With tracking, after a run of any selection in any mode AllPending selects exactly what was pending before less what the run entered in the ledger |
| `MigrationResume.SliceResumes` | src-tauri/src/migrations/commands.rs:338-400 | After a run over any slice of the pending migrations AllPending selects what was before the slice and what the run did not enter of the rest |
| `MigrationResume.RangeResumes` | src-tauri/src/migrations/commands.rs:303-400 | After a Range run that stops anywhere, AllPending selects exactly what was before the range and everything from the first one that run did not enter in the ledger |
| `MigrationResume.ApplyResumes` | src-tauri/src/migrations/commands.rs:338-400 | After an AllPending run, AllPending selects exactly what that run did not enter in the ledger: it resumes at the migration that failed, or after it when only the answer to its ledger entry was lost |
| `MigrationResume.ExecuteKeepsOnceExactly` | src-tauri/src/migrations/executor.rs:164-216 | With tracking, one migration keeps every version that took effect in the ledger and run once, exactly unless its SQL took effect, whatever was reported, and no ledger entry was written |
| `MigrationResume.ApplyKeepsOnceExactly` | src-tauri/src/migrations/executor.rs:135-218 | A whole run of any selection keeps that exactly when it does not end in such a migration |
| `MigrationResume.ForgottenRunsTwice` | src-tauri/src/migrations/executor.rs:184-216 | After SQL that took effect without a ledger entry the next attempt runs it again |
| `MigrationResume.DirectoryRunResumes` | src-tauri/src/migrations/commands.rs:335-400 | Discovering, joining, selecting in any mode and applying over one directory: what was applied is shown as applied, and AllPending then selects what was pending before less what the run entered |
| `MigrationResume.UntrackedRerunsEverything` | src-tauri/src/migrations/executor.rs:161-182 | Without tracking a run leaves the ledger as it was, and a second one that gets through executes every migration again, those of the first included |
| `MigrationResume.DiscoveredIsReady` | src-tauri/src/migrations/discovery.rs:133-153 | What discovery returns is sorted, and the up file of each clean entry can be read and has the checksum shown |
| `Keychains.MemoryKeychain.Store` | src-tauri/src/connection/keychain.rs:232-239 | The map gains the entry |
| `Keychains.MemoryKeychain.Get` | src-tauri/src/connection/keychain.rs:241-247 | The map's entry, or none |
| `Keychains.MemoryKeychain.Delete` | src-tauri/src/connection/keychain.rs:249-256 | The map loses the entry; deleting an absent one succeeds |
| `Keychains.CachingKeychain.Store` | src-tauri/src/connection/keychain.rs:425-433 | A successful store is cached; a failed one leaves the cache |
| `Keychains.CachingKeychain.Get` | src-tauri/src/connection/keychain.rs:435-457 | A cached password is the answer and the backend is not asked; a found one is cached |
| `Keychains.CachingKeychain.Delete` | src-tauri/src/connection/keychain.rs:459-468 | The cache entry goes even when the backend's delete fails |
| `Keychains.RemembersUntilReset` | src-tauri/src/connection/keychain.rs:424-457 | A password that became known stays cached until the next successful store or any delete of its id |
| `Keychains.GetsAreStable` | src-tauri/src/connection/keychain.rs:403-457 | Over any backend, once a store succeeded or a get found a password every get answers with it until the next successful store or any delete of that id |
| `Keychains.AnswersExactly` | src-tauri/src/connection/keychain.rs:424-469 | Over any backend every answer is accounted for: stores and deletes get the backend's, refusals included, and a get the password last learned, or the backend's answer when none is known |
| `Keychains.DeleteForgets` | src-tauri/src/connection/keychain.rs:459-468 | After a delete, even a failed one, the next get is answered by the backend |
| `Keychains.CachingIsTransparent` | src-tauri/src/connection/keychain.rs:424-469 | Over a reliable map with any contents from the start, those an earlier process stored included, every answer of every run is the map's own |
| `Keychains.LayeredKeychain.Store` | src-tauri/src/connection/keychain.rs:370-379 | Both layers are written whatever the first says; the result is an error only when both fail |
| `Keychains.LayeredKeychain.Get` | src-tauri/src/connection/keychain.rs:381-393 | The primary's answer, or the secondary's when the primary has none or fails; a failing primary's error wins over an absent entry |
| `Keychains.LayeredKeychain.Delete` | src-tauri/src/connection/keychain.rs:395-400 | Both layers are deleted from; the secondary's result is reported |
| `Keychains.LayeredReadAfterStore` | src-tauri/src/connection/keychain.rs:370-393 | When a store was reported as done, exactly which later reads, with either layer able to answer or not, give that password back |
| `Keychains.LayeredReadAfterDelete` | src-tauri/src/connection/keychain.rs:381-400 | A delete reported as done leaves nothing to find exactly when both layers can be read and the primary's delete worked too or the primary had nothing |
| `Keychains.StalePasswordIsRead` | src-tauri/src/connection/keychain.rs:370-400 | A primary that holds a password and refuses writes goes on answering with it after a store and a delete that were reported as done |
| `Keychains.LayeredErrors` | src-tauri/src/connection/keychain.rs:370-400 | Exactly when a layered store or get fails, and with which layer's error |
| `CopyName.UniqueCopyName` | src-tauri/src/connection/commands.rs:326-346 | The first name of "X copy", "X copy 2" to "X copy 999" not taken; refused exactly when all 999 are, so never with fewer than 999 names |
| `CopyName.CandidatesDiffer` | src-tauri/src/connection/commands.rs:333-338 | The candidates are pairwise different |
| `CopyName.AllTaken` | src-tauri/src/connection/commands.rs:337-345 | When n candidates are taken there are at least n names |
| `CopyName.FirstFreeUnique` | src-tauri/src/connection/commands.rs:333-342 | The first free name is determined |
| `Lifecycle.AppState.CreateConnection` | src-tauri/src/connection/commands.rs:280-292 | The row is written first and the secret after it; each way to stop, a failed read-back of the row included, with what it leaves |
| `Lifecycle.AppState.DuplicateConnection` | src-tauri/src/connection/commands.rs:297-321 | The copy is an ordinary creation under the first free name with the source's secret, or nothing changes; when it succeeds the copy differs from the source in the name only and has its password, if that is not empty |
| `Lifecycle.AppState.UpdateConnection` | src-tauri/src/connection/commands.rs:348-390 | The secret is changed before the row, and the pool is evicted when something it depends on changes; each way to stop, a failed read-back included, with what it leaves |
| `Lifecycle.AppState.DeleteConnection` | src-tauri/src/connection/commands.rs:392-411 | Secret and pool go before the row; a failure leaves a row that can be deleted again |
| `Lifecycle.AppState.ConnectionConnect` | src-tauri/src/connection/commands.rs:480-583 | A pool is registered only after the probe answered; a missing secret corrects the row's flag and is reported |
| `Lifecycle.AppState.ConnectionDisconnect` | src-tauri/src/connection/commands.rs:588-592 | The pool goes, if there is one, and nothing else changes |
| `LifecycleRuns.StepIsLocal` | src-tauri/src/connection/commands.rs:280-592 | An operation touches only what the stores hold for its own connection |
| `LifecycleRuns.StepKeepsNames` | src-tauri/src/connection/store.rs:193-287 | No operation makes two rows share a name |
| `LifecycleRuns.StepAgreesExactly` | src-tauri/src/connection/commands.rs:280-592 | An operation keeps row, secret and pool in agreement exactly when it does not stop half way between its writes, a failed read-back included, in a way that leaves a stale pool or a wrong flag |
| `LifecycleRuns.RunAgrees` | src-tauri/src/connection/commands.rs:280-592 | In every run without such an operation each pool is what would be built from its row and secret, every pool has a row, and a row claims a password exactly when there is one |
| `LifecycleRuns.RunKeepsRows` | src-tauri/src/connection/store.rs:553-573 | In every run, torn or not, names stay unique and no row has a blank field or a name of more than 80 characters |
| `LifecycleRuns.BuildForExact` | src-tauri/src/connection/pool.rs:227-239 | Two pools are alike exactly when password and endpoint are, but for the modes allow and prefer |
| `LifecycleRuns.ConnectRepairsExactly` | src-tauri/src/connection/commands.rs:498-516 | When the backend has lost an entry the next connect reports it by name and, the row store working, corrects the flag, which restores agreement exactly when no pool was registered |
| `LifecycleRuns.PoolsAreAsStrictAsRows` | src-tauri/src/connection/pool.rs:38-58 | In every run without a torn operation each pool goes without TLS exactly when its row disables it, and checks certificates exactly when its row asks for it, TLS then being required |
| `LifecycleRuns.UpdateEvictsExactly` | src-tauri/src/connection/commands.rs:363-388 | A successful update keeps a registered pool exactly when neither the endpoint nor the password changes |
| `LifecycleMeans.WriteRowExactly` | src-tauri/src/connection/store.rs:193-287 | A row is written exactly when its fields are filled in, its name is short enough and no other row's, and the store works, and then holds what was given; otherwise the error tells which |
| `LifecycleMeans.CreateMeans` | src-tauri/src/connection/commands.rs:280-292 | A creation succeeds exactly when row and secret can be written; then the row has the name, endpoint and settings given and the keychain the given password under its id; a failure leaves no secret, and a row only when read-back or keychain failed |
| `LifecycleMeans.UpdateSucceedsExactly` | src-tauri/src/connection/commands.rs:348-390 | Exactly when an update succeeds, finds no row, or fails at the keychain |
| `LifecycleMeans.UpdateMeans` | src-tauri/src/connection/commands.rs:348-390 | After an update the row has what was given, the secret is as asked and the pool is gone exactly when endpoint or password were to change; one that fails has changed the secret all the same once the keychain took it |
| `LifecycleMeans.RefusedUpdateChangesPassword` | src-tauri/src/connection/commands.rs:382-384 | An update refused because its name is taken has changed the password |
| `LifecycleMeans.DeleteMeans` | src-tauri/src/connection/commands.rs:392-411 | A deletion that succeeds leaves nothing of the connection; one that fails at the keychain changes nothing, and one that fails later keeps the row only |
| `LifecycleMeans.ConnectMeans` | src-tauri/src/connection/commands.rs:480-583 | Exactly when a connect succeeds, and that its pool then goes to the row's host, port, database and user with the keychain's password and a mode as strict as the row's; a failure keeps pools and secrets, and a missing password is reported exactly when it is what is missing |
| `LifecycleMeans.FailuresAreTold` | src-tauri/src/connection/commands.rs:280-390 | Each failure of a creation or an update is reported as the cause it has |
| `LifecycleMeans.LaterFailuresAreTold` | src-tauri/src/connection/commands.rs:392-583 | So is each failure of a deletion or a connect |
| `LifecycleMeans.SecretIsLastGiven` | src-tauri/src/connection/commands.rs:280-411 | In every run, torn or not, the secret of a connection is the one last given and not cleared, deleted or lost since |
| `LifecycleMeans.NoSecretUnlessGiven` | src-tauri/src/connection/commands.rs:280-411 | In every run there is no secret for an id to which none was given |
| `LifecycleMeans.RowIsLastWritten` | src-tauri/src/connection/commands.rs:280-390 | In every run, torn or not, a row has the name and endpoint of the last input written to it |
| `LifecycleMeans.PoolIsLastRegistered` | src-tauri/src/connection/commands.rs:348-592 | In every run, torn or not, there is a pool exactly when a connect succeeded and no disconnect, deletion or update has given it up since, and it goes to the row's server with the password of that time |
| `Crontab.StripMarkerLines` | src-tauri/src/backup/installer.rs:56-70 | The text left is that of the unmarked lines, each terminated, less one final empty line |
| `Crontab.ComposeCrontab` | src-tauri/src/backup/installer.rs:75-83 | The stripped text with the schedule's line and a line feed after it |
| `Crontab.LinesAfterStrip` | src-tauri/src/backup/installer.rs:56-70 | For every text, what is read back after a strip is the kept lines, each less a carriage return it ended in |
| `Crontab.StripKeepsLinesExactly` | src-tauri/src/backup/installer.rs:56-70 | The lines after a strip are exactly the unmarked ones in order, less one final empty line, just when none of them ends in a carriage return |
| `Crontab.LinesAfterCompose` | src-tauri/src/backup/installer.rs:75-83 | A rewrite reads back as the stripped lines and then the lines of the new entry |
| `Crontab.ComposeAddsOneLineExactly` | src-tauri/src/backup/installer.rs:75-83 | A rewrite reads back as the stripped lines and the new line exactly when id and cron expression hold no line feed |
| `CrontabMarkers.MarkerIsPrefix` | src-tauri/src/backup/schedule.rs:166-172 | A schedule's line holds the marker of exactly those ids that its own id begins with |
| `CrontabMarkers.MarkedAfterStrip` | src-tauri/src/backup/installer.rs:56-70 | Removing the lines of one id leaves of another's lines those without the first's marker |
| `CrontabMarkers.MarkedAfterCompose` | src-tauri/src/backup/installer.rs:75-83 | An entry adds one line to each schedule whose id its own id begins with, and to no other |
| `CrontabMarkers.EntryLines` | src-tauri/src/backup/schedule.rs:166-172 | The text of an entry is one line of its schedule after some lines without a marker, of which there are none exactly when the cron expression holds no line feed |
| `CrontabMarkers.StripTakesExactly` | src-tauri/src/backup/installer.rs:56-70 | Uninstalling an id takes away the line of every schedule whose id begins with it, and of no other |
| `CrontabMarkers.ComposeGives` | src-tauri/src/backup/installer.rs:75-83 | After an install the schedule has exactly one line, its own |
| `CrontabMarkers.ComposeSparesExactly` | src-tauri/src/backup/installer.rs:75-83 | An install leaves another schedule its one line exactly when neither id begins with the other |
| `CrontabLaws.StripKeepsOthers` | src-tauri/src/backup/installer.rs:56-70 | Uninstalling changes no non-empty line that is not the schedule's |
| `CrontabLaws.ComposeKeepsOthers` | src-tauri/src/backup/installer.rs:75-83 | Installing changes no non-empty line that is not the schedule's, and the schedule's lines are then the one |
| `CrontabLaws.RewritesKeepOthers` | src-tauri/src/backup/installer.rs:56-83 | Install, reinstall and uninstall in turn change no other non-empty line, and the uninstall takes back what was added |
| `CrontabLaws.InstallAddsOnlyItsLine` | src-tauri/src/backup/installer.rs:75-83 | With a valid cron expression an install adds nothing but the one marked line exactly when the expression holds no line feed |
| `CrontabLaws.LineFeedIsAcceptedAndLeavesJunk` | src-tauri/src/backup/schedule.rs:100-121 | Every accepted expression stays accepted with a line feed for one of its separators, and installing it then adds more than the marked line |
| `CrontabLaws.StripTwiceExactly` | src-tauri/src/backup/installer.rs:56-70 | For every text and id, stripping twice is stripping once exactly when the first strip leaves no empty line at the end and no line that ends in a carriage return |
| `CronExpression.TokenExact` | src-tauri/src/backup/schedule.rs:127-157 | A token is accepted exactly when it is "*/n" with n positive, a range in order within bounds, or a number within bounds |
| `CronExpression.NumberExactly` | src-tauri/src/backup/schedule.rs:132-156 | A text is read as a number exactly when it is that number printed, after any number of zeros and at most one plus sign, and fits 32 bits |
| `CronExpression.SplitExactly` | src-tauri/src/backup/schedule.rs:129-131 | Splitting at a separator gives exactly the pieces that lack it and make up the text with it between them, empty ones included |
| `Text.SplitWhitespaceExactly` | src-tauri/src/backup/schedule.rs:101 | Splitting at white space gives exactly the words that make up the text with white space between them and around |
| `Text.LinesExactly` | src-tauri/src/backup/installer.rs:59-64 | Every text reads back as its lines, each less a carriage return before its line feed, the last one also without a line feed |
| `CronExpression.AcceptedExactly` | src-tauri/src/backup/schedule.rs:96-159 | An expression is accepted exactly when it has five words, each "*" or a comma list of well-formed tokens within that field's range |
| `CronExpression.PlainNumberExactly` | src-tauri/src/backup/schedule.rs:108-115 | A plain number is accepted as minute, hour, day, month or day of the week exactly when it is one, Sunday being 0 or 7 |
| `CronExpression.RefusalNamesField` | src-tauri/src/backup/schedule.rs:108-118 | A refusal of five fields names the first that is not well-formed |
| `CronExpression.AcceptedCharacters` | src-tauri/src/backup/schedule.rs:100-159 | An accepted expression holds white space, digits, "*", "/", "-", "," and "+" only, so no comment sign |
| `CronExpression.SeparatorsDoNotMatter` | src-tauri/src/backup/schedule.rs:101 | Exchanging one white space character for another, a line feed too, changes no verdict |
| `Scheduler.Files.Upsert` | src-tauri/src/backup/schedule.rs:53-84 | A checked expression replaces label, expression and options of the entry with that id, its installed flag kept, or is added as a new entry not installed |
| `Scheduler.Files.Remove` | src-tauri/src/backup/schedule.rs:86-94 | The entries with that id go; the crontab is not touched |
| `Scheduler.Files.Install` | src-tauri/src/backup/installer.rs:150-168 | The crontab is rewritten before the entry is marked; each failure, with what it leaves |
| `Scheduler.Files.Uninstall` | src-tauri/src/backup/installer.rs:171-184 | The crontab is stripped, and written only if that changes it, before the entry is unmarked; each failure, with what it leaves |
| `SchedulerLaws.UpsertReadsBack` | src-tauri/src/backup/schedule.rs:53-84 | After a successful upsert the entry with that id has the fields given and the flag it had, off when new, and every other entry is as before |
| `SchedulerLaws.RemoveUndoesUpsert` | src-tauri/src/backup/schedule.rs:53-94 | Removing after an upsert leaves what removing without it leaves |
| `SchedulerLaws.UninstallUndoesInstall` | src-tauri/src/backup/installer.rs:150-184 | Installing and uninstalling an entry restores the schedule file and leaves the crontab's other non-empty lines and none of the schedule's |
| `SchedulerRuns.UpsertIsSound` | src-tauri/src/backup/schedule.rs:53-84 | Adding or changing a schedule keeps ids unique and every installed entry's line |
| `SchedulerRuns.RemoveIsSound` | src-tauri/src/backup/schedule.rs:86-94 | So does removing one, failed writes included |
| `SchedulerRuns.InstallIsSoundExactly` | src-tauri/src/backup/installer.rs:150-168 | Installing keeps them exactly when it stops before the crontab is written or no other installed id begins this one or begins with it |
| `SchedulerRuns.UninstallIsSoundExactly` | src-tauri/src/backup/installer.rs:171-184 | Uninstalling keeps them exactly when no other installed id begins with this one and the schedule file does not fail after the crontab was stripped of an installed entry |
| `SchedulerRuns.StepIsSoundExactly` | src-tauri/src/backup/installer.rs:150-184 | The exact condition under which an operation keeps ids unique and gives every entry marked installed exactly one crontab line with its marker |
| `SchedulerRuns.RunIsSound` | src-tauri/src/backup/installer.rs:150-184 | From no schedules and any crontab, every run without a breaking operation keeps that |
| `SchedulerLines.LineIsCurrentExactly` | src-tauri/src/backup/schedule.rs:62-68 | In every run without a breaking operation an installed entry's line runs the expression of its last install, and so the entry's present one exactly when that is still the same |
| `SchedulerLines.OnlyUpsertChangesCron` | src-tauri/src/backup/schedule.rs:62-68 | Only an upsert of its own id changes an entry's expression |
| `SchedulerOrphans.StepOwnsExactly` | src-tauri/src/backup/schedule.rs:86-94 | Where every marked crontab line is that of an entry marked installed, an operation that breaks nothing keeps it so exactly unless it removes an installed schedule, or installs one whose flag cannot be written |
| `SchedulerOrphans.RunOwns` | src-tauri/src/backup/installer.rs:150-184 | From a crontab without the marker, a run of operations that neither break nor orphan keeps every marked line and every installed entry matched both ways |
| `SchedulerOrphans.RemoveOrphans` | src-tauri/src/backup/schedule.rs:86-94 | Removing an installed schedule leaves its crontab line without an entry |
| `SchedulerMeans.UpsertSucceedsExactly` | src-tauri/src/backup/schedule.rs:53-84 | An upsert succeeds exactly when the expression has five well-formed fields and the file can be read and written; a malformed one is refused before any file is touched, and whatever fails changes nothing |
| `SchedulerMeans.RemoveSucceedsExactly` | src-tauri/src/backup/schedule.rs:86-94 | Exactly when a remove succeeds; then the id's entries are gone and all others there |
| `SchedulerMeans.InstallSucceedsExactly` | src-tauri/src/backup/installer.rs:150-168 | An install succeeds exactly when the entry exists and nothing fails; then the crontab is rewritten for its expression and it is marked; otherwise no entry changes, and the crontab only when the last write is what failed |
| `SchedulerMeans.UninstallSucceedsExactly` | src-tauri/src/backup/installer.rs:171-184 | Exactly when an uninstall succeeds; then no line of the schedule is left and its entry is not marked |
| `SchedulerMeans.CronLineText` | src-tauri/src/backup/schedule.rs:166-172 | The line written is the expression, the command and the marker, and a remark |
| `SchedulerMeans.RunIsAccepted` | src-tauri/src/backup/schedule.rs:53-121 | In every run, breaking operations included, each stored entry has a well-formed expression |
| `SchedulerMeans.RunWritesAccepted` | src-tauri/src/backup/installer.rs:150-184 | In every run from a crontab without the marker, breaking operations included, each marked line is one written for a well-formed expression |
| `SchedulerCases.PrefixTakesLine` | src-tauri/src/backup/installer.rs:56-70 | With "ab" installed, uninstalling "a" takes the line of "ab" |
| `SchedulerCases.StripTwiceDiffers` | src-tauri/src/backup/installer.rs:56-70 | A text on which stripping twice differs from stripping once |
| `SchedulerCases.StaleAfterUpsert` | src-tauri/src/backup/schedule.rs:62-68 | A run of save, install and save with another valid expression: the schedule file has the second, the crontab runs the first |
| `SchedulerCases.MovedScheduleStays` | src-tauri/src/backup/schedule.rs:62-68 | Moved from minute 0 to minute 5, an installed schedule still runs at minute 0 |
| `SchedulerRuns.PrefixFreeRunIsSound` | src-tauri/src/backup/installer.rs:150-184 | With ids none of which begins another and a schedule file that can be read and written, every run does, even when the crontab cannot be |

## Left out

- User interface, internationalisation, theming, serialisation and the thin command wrappers: no invariants of their own.
- SQL, TLS, HTTP, sockets, file watching, child processes, SHA-256, UUIDs and random tokens: results are arguments of the steps that use them.
- StderrTail.ProcessStderrStream: does not model parsing of progress lines, emitted events, or a read error in mid-stream, none of which reaches the tail.
- CivilDate.DaysToYmdExact: day numbers are unbounded here; the 64-bit sum `days + 719468` can overflow only for day numbers that no 64-bit second reaches.
- RateLimiting.RateLimiter.CheckAndRecord: the mutex is not modelled; a call is one step.
- McpServer.RunKeepsInvariants: issuing a token is one step whose keychain write and row insert both work or both do not; the dialogs that lead to it and the write confirmation inside tools are not modelled.
- McpRuns.AuditIsExact: the file appender behind the log is taken not to fail; the code ignores its failures.
- McpServer.AtMostTenServedPerSecond: a run is one server's life; every start begins with empty limiters (`src-tauri/src/mcp/server.rs:549`), so a stop and a start give each client ten more requests at once.
- McpServer.RevokedTokenFails: a failure of the database itself while revoking is not modelled.
- Snapshots.HealthSnapshots.Save: instants are whole seconds, as `datetime()` makes them; timestamps it cannot parse, and the query `recent`, are not modelled.
- Diagnostics.AtMostForty: the clock does not run backwards; `Date.now()` may, and then a window lasts longer.
- Discovery.Discover: file contents and hashes are a function of the path, fixed for one call.
- MigrationRun.Database.ExecuteOne: what the SQL does, transactions and the no-transaction directive are the database's; snapshots, progress events, durations and the ledger's name, applied-at and applied-by columns are not modelled, nor is rollback.
- ApplyMigrations.RangeSelected: duplicate versions are excluded, which discovery and the join guarantee (`DiscoverSorted`, `JoinedUnique`).
- Keychains.GetsAreStable: the file-backed keychain and the operating system's are represented by their answers only; a poisoned mutex is not modelled.
- Lifecycle.AppState.UpdateConnection: columns no pool depends on are one field; cursors and the inference cache are not modelled.
- LifecycleRuns.RunAgrees: operations run one after the other; the code holds no lock across an operation.
- Lifecycle.AppState.ConnectionConnect: the pool is its configuration; closing a replaced pool is not modelled.
- Scheduler.Files.Upsert: the options are one opaque value, and the columns for the last run, which nothing here writes, are not modelled.
- Scheduler.Files.Install: a failed write leaves the file as it was; the Windows scheduler and its XML are not modelled.
- SchedulerRuns.RunIsSound: the user does not edit the crontab between operations; ids are made of letters, digits and '-'.
