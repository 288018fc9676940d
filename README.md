# UptimeKit monitoring core in Dafny

UptimeKit is a command-line uptime monitor. Users register HTTP, ICMP and DNS
monitors in a SQLite database. A daemon keeps one repeating check loop alive
per monitor and appends a heartbeat (up or down, with a latency) after every
check. Commands and a terminal dashboard derive a status snapshot from the
heartbeat history.

This project models that core and proves its properties:

- The tables are the fields of a `Database` class (`store.dfy`). Each write
  operation is a method that replaces them statement by statement.
- The read queries and the statistics are pure functions (`queries.dfy`,
  `groups.dfy`, `stats.dfy`).
- The daemon's scheduler is a `Scheduler` class (`worker.dfy`). Its
  reconciliation pass is proved against a functional specification
  (`RefreshOf`), and the lemmas about convergence and idempotence are proved
  about that specification.
- The `group` and `delete` commands, the notifier and the dashboard row
  formatting are in `groupcommand.dfy`, `deletecommand.dfy`, `notifier.dfy`
  and `dashboard.dfy`.

Where it matters, the model fixes the following:

- Heartbeat history is kept in insertion order. `History` reads it newest
  first, and `Queries.HistoryIsNewestFirst` shows this is one order
  consistent with `ORDER BY timestamp DESC` whenever time stamps never go
  backwards. Rows with equal time stamps come newest insertion first.
- Case-insensitive comparison is SQLite's ASCII `lower()` (`Text.Lower`).
- White space is the ECMAScript set that `String.prototype.trim` removes.
- Uptime is an exact rational. Latencies are rounded as `Math.round` does.
- Probe results, elapsed times, clock readings, the text typed at
  confirmation prompts and the hostname from the WHATWG URL parser are all
  parameters.

`src/commands/group.js` imports `getGroups`, `groupExists`, `renameGroup`,
`deleteGroup` and `getMonitorsByGroup` from `src/core/db.js`. The `db.js`
shown here defines none of them. The model therefore takes their definitions
from `tests/core/group.test.js`. The same applies to the `webhook_url`,
`group_name` and `ssl_certificates` columns.

One difference from the written description: for an ICMP monitor whose ping
completes but reports the host as not alive, the code records the reported
round-trip time, or 0 (`src/daemon/worker.js:25-26`). It does not record the
elapsed time. `Worker.Classify` follows the code.

## Model

| member | source | states |
|---|---|---|
| Schema.Label | src/commands/group.js:82 | a monitor's label is its name when the name is non-empty, otherwise its URL |
| Schema.Ids | src/daemon/worker.js:60 | the id set holds exactly the ids of the listed monitors |
| Queries.History | src/core/db.js:116 | a monitor's history holds exactly that monitor's heartbeats and is no longer than the table |
| Queries.HistoryIsNewestFirst | src/core/db.js:116 | when time stamps never decrease in insertion order, the history is ordered by time stamp, newest first |
| Queries.LoggedHeartbeatIsNewest | src/core/db.js:108-111 | after a heartbeat is appended, it heads its own monitor's history; every other history is unchanged |
| Queries.HeartbeatsFor | src/core/db.js:104-106 | the result is a prefix of the newest-first history, as long as `limit` allows; a negative limit returns the whole history |
| Queries.Lookup | src/core/db.js:80-83 | blank input finds nothing; anything found is a row of the table |
| Queries.LookupTrimmed | src/core/db.js:85-101 | the cascade tries the id first (digits only), then the exact name, then the exact URL, each ignoring case; the first stage with a match decides; whatever is found satisfies one of the stages |
| Queries.ExactMatchIsFuzzy | src/core/db.js:90-98 | an exact name or URL match is also a substring match, so the fuzzy stage covers the exact stages |
| Queries.LookupFindsNothingIff | src/core/db.js:82-101 | the lookup fails exactly when the input is blank, or when no row matches by id, name substring or URL substring |
| Queries.HostQueryIsSubsumed | src/core/db.js:96-101 | the final URL-only query never finds a row that the combined fuzzy query missed |
| Queries.LookupByIdOrName | tests/core/group.test.js:109-122 | the shorter lookup finds a row matching the trimmed input by id or by name, and finds nothing exactly when the input is blank or no row matches |
| Queries.LookupByIdOrNameAgrees | tests/core/group.test.js:109-122 | whenever the shorter lookup finds a row, the full cascade finds the same row |
| Stats.UpCount | src/core/db.js:119 | the up count is at most the total; it equals the total exactly when every sample is up, and is 0 exactly when none is |
| Stats.Uptime | src/core/db.js:118-120 | uptime is 0 for an empty history and otherwise 100·up/total; it lies in [0,100], is 100 exactly when all samples are up and 0 exactly when none is |
| Stats.DownRunEnd | src/core/db.js:136-145 | when the newest sample is down, the chosen index k has every sample from 0 to k down, and the sample at k+1 is absent or up |
| Stats.DownRunEndIsUnique | src/core/db.js:138-145 | any index with the run-end property is the one the scan picks |
| Stats.DowntimeOf | src/core/db.js:133-155 | the result is no downtime exactly when no sample is down; it is "down since" exactly when the newest sample is down; "last down at" only when the newest sample is up |
| Stats.DownSinceIsRunStart | src/core/db.js:136-149 | for a newest-down history, the downtime starts at the oldest sample of the unbroken down run that includes the newest one |
| Stats.LastDownIsMostRecentDown | src/core/db.js:150-154 | for a newest-up history, the downtime refers to the first down sample in newest-first order |
| Stats.ScanDowntime | src/core/db.js:137-146 | the `for` loop with `break` computes the same downtime as `DowntimeOf`; the `lastHeartbeat` fallback is never reached |
| Stats.SnapshotOf | src/core/db.js:115-165 | the status is the newest sample's status, or unknown for an empty history; the latency is the newest sample's latency, or 0; the monitor row is copied unchanged; the status is down exactly when the downtime is "down since" |
| Stats.GetStats | src/core/db.js:113-169 | one snapshot per monitor, in registry order, each over that monitor's own history |
| Stats.ScenarioTrailingDownRun | src/core/db.js:133-149 | three down samples after one up sample: status down, uptime 25, downtime since the oldest of the three |
| Stats.ScenarioRecovered | src/core/db.js:150-154 | two up samples after one down sample: status up, uptime 200/3, last downtime at the down sample |
| Groups.MembersOf | tests/core/group.test.js:191 | a group's members are exactly the rows whose group equals the name ignoring case; there is a member exactly when the group exists |
| Groups.MonitorsByGroup | tests/core/group.test.js:187-192 | a null group or the literal name 'ungrouped' selects the rows without a group; any other name selects the group's members |
| Groups.Insert | tests/core/group.test.js:137-142 | adding a row to the grouped counts keeps them sorted by name and adds the name |
| Groups.GetGroups | tests/core/group.test.js:136-144 | the groups are sorted by name, each count is positive, the empty name is excluded, each count is the number of rows with exactly that name, and the counts add up to the grouped rows |
| Groups.GroupsListEachGroupOnce | tests/core/group.test.js:137-143 | a name is listed exactly when it is non-empty and some row carries it, and no name is listed twice |
| Groups.RenameRows | tests/core/group.test.js:161-162 | the rows in the old group (ignoring case) get the new name; all other rows are untouched |
| Groups.UngroupRows | tests/core/group.test.js:183 | the group's rows lose their group, all others are untouched, and the group no longer exists |
| Groups.RenameMovesMembers | tests/core/group.test.js:151-163 | when no row is in the new group without being in the old one, the new group ends with as many members as the old group had, and the old group is gone unless the two names differ only in case |
| Groups.ApplyUpdate | tests/core/group.test.js:91-102 | each supplied field takes its new value, null included; every other field and the id keep their old values |
| Groups.UpdateRows | tests/core/group.test.js:101-102 | only the row with the id changes, and the id set is unchanged |
| Store.DropMonitor | tests/core/group.test.js:127 | the remaining rows are exactly those without the id |
| Store.DropHeartbeats | tests/core/group.test.js:125 | the remaining heartbeats are exactly those of other monitors |
| Store.NoHistoryLeft | src/commands/delete.js:37 | once a monitor's heartbeats are deleted, its history is empty |
| Store.DropCertificates | tests/core/group.test.js:126 | the remaining certificates are exactly those of other monitors |
| Store.DropGroup | tests/core/group.test.js:181 | the remaining rows are exactly those outside the group, and the group no longer exists |
| Store.AddKeepsNamesUnique | tests/core/group.test.js:67-75 | an insert whose name passed the duplicate check keeps names unique ignoring case |
| Store.UpdateKeepsNamesUnique | tests/core/group.test.js:81-86 | an update whose name passed the duplicate check (other rows only) keeps names unique |
| Store.Assignments | tests/core/group.test.js:88-98 | the pushed `fields` list holds each supplied column exactly once, in column order, and is empty exactly when no field is supplied |
| Store.Database.constructor | src/core/db.js:21-40 | the tables start empty and the invariant holds |
| Store.Database.AddMonitor | tests/core/group.test.js:67-76 | fails exactly when a non-empty name is already taken ignoring case, and then changes nothing; otherwise appends exactly one row under a fresh id and returns that id |
| Store.Database.UpdateMonitor | tests/core/group.test.js:78-103 | a taken name is refused and an update with no field does nothing, both without changes; otherwise the supplied fields of the row change and the result counts the rows touched |
| Store.Database.DeleteMonitor | tests/core/group.test.js:124-128 | the heartbeats, certificate and row of the monitor are gone, nothing else is, and the result counts the rows removed |
| Store.Database.DeleteHeartbeatsOf | src/commands/delete.js:37 | the monitor's heartbeats are gone and its history is empty; the other tables are unchanged |
| Store.Database.DeleteMonitorRow | src/commands/delete.js:38-39 | the row with the id is gone and the id set loses exactly that id; heartbeats stay |
| Store.Database.LogHeartbeat | src/core/db.js:108-111 | exactly one heartbeat is appended; it becomes the newest of its monitor's history, and all other histories are unchanged |
| Store.Database.RenameGroup | tests/core/group.test.js:151-163 | fails when the old group does not exist, or when another group already has the new name; otherwise renames every member and reports their number |
| Store.Database.DeleteGroup | tests/core/group.test.js:165-185 | fails when the group does not exist; with monitors, deletes the members with their heartbeats and certificates; without, ungroups them; the group is gone either way |
| Worker.PingLatency | src/daemon/worker.js:26 | the ICMP latency is the reported time, or 0 when it is 'unknown' or does not parse |
| Worker.Round | src/daemon/worker.js:38 | the stored latency is the nearest integer, with halves rounded up |
| Worker.Classify | src/daemon/worker.js:8-35 | HTTP is up exactly for codes 200-299, timed by elapsed time; ICMP follows the reply's alive flag, with its reported latency; DNS is up exactly when it resolves; a throw is down with elapsed time; an unknown type is down with latency 0 |
| Worker.CheckMonitor | src/daemon/worker.js:8-42 | the status and latency are those of `checkMonitor`'s branch for the monitor type (HTTP 2xx, ping alive with its reported time, DNS resolved, a throw is down with the elapsed time, other types down with 0); one heartbeat with that status and the rounded latency is appended, or none when the write fails; nothing else changes |
| Worker.Started | src/daemon/worker.js:71-81 | the monitors a pass starts are exactly those with no loop, or whose interval, URL or type changed |
| Worker.VisitKeepsWellFormed | src/daemon/worker.js:71-80 | one step of the second loop keeps one live timer per id, none of them cancelled |
| Worker.PruneKeepsWellFormed | src/daemon/worker.js:62-68 | removing stale loops keeps the scheduler well formed |
| Worker.RefreshKeepsWellFormed | src/daemon/worker.js:57-85 | a whole reconciliation pass keeps the scheduler well formed |
| Worker.VisitFacts | src/daemon/worker.js:71-80 | a step adds the monitor's id and leaves other loops alone; it restarts exactly when needed, cancelling the old timer and starting a new check |
| Worker.PruneAgrees | src/daemon/worker.js:62-81 | removing stale loops first does not change which registry monitors get started or restarted |
| Worker.RefreshSpec | src/daemon/worker.js:57-85 | after a pass the loops are exactly the registry's ids; unchanged monitors keep their loop, changed or new ones get a fresh loop; the checks run are those started, and the timers cancelled are those of stale and restarted loops |
| Worker.RefreshSyncs | src/daemon/worker.js:57-85 | after a pass the loops match the registry: one per monitor, none needing a restart |
| Worker.RefreshInSyncIsIdle | src/daemon/worker.js:70-81 | a pass over a registry already in sync changes nothing |
| Worker.RefreshTwice | src/daemon/worker.js:57-85 | a second pass with the same registry changes nothing |
| Worker.RemoveStale | src/daemon/worker.js:62-68 | the first loop leaves exactly the loops whose id is in the registry, and cancels exactly the timers of the others |
| Worker.Scheduler.constructor | src/daemon/worker.js:6 | the scheduler starts with no loops |
| Worker.Scheduler.StartMonitorLoop | src/daemon/worker.js:44-55 | runs one check, allocates a new timer and records the loop under the monitor's id |
| Worker.Scheduler.CancelStale | src/daemon/worker.js:62-68 | the scheduler state becomes the pruned state |
| Worker.Scheduler.VisitOne | src/daemon/worker.js:71-80 | the scheduler state becomes one step of the specification |
| Worker.Scheduler.Refresh | src/daemon/worker.js:57-85 | a failed registry read leaves everything unchanged; otherwise the state becomes `RefreshOf` of the old state and the registry, and stays well formed |
| GroupCommand.ParseAction | src/commands/group.js:30-53 | a missing or empty action lists; otherwise the action ignoring case selects list for list/ls, rename for rename/mv, delete for delete/del/rm, and anything else is unknown and keeps its original spelling |
| GroupCommand.ParseIgnoresCase | src/commands/group.js:32 | two spellings that differ only in case select the same action |
| GroupCommand.CheckRename | src/commands/group.js:93-123 | fewer than two arguments is reported first; the rename proceeds exactly when the names differ ignoring case, the new name is not blank, the old group exists and the new one does not |
| GroupCommand.RenameGuardsAgree | src/commands/group.js:113-125 | a rename the command lets through also passes the table operation's own checks |
| GroupCommand.CheckDeleteAsWritten | src/commands/group.js:129-151 | a missing name is reported first, then a missing group; an existing group is reported empty exactly when its name is literally 'ungrouped' and every monitor has a group; the deletion is confirmed exactly when the group exists, is not reported empty and the answer is accepted |
| GroupCommand.CheckDelete | src/commands/group.js:129-184 | missing name and missing group are reported exactly when they occur; an existing group never counts as empty; the deletion is confirmed exactly when the group exists and the answer is accepted |
| GroupCommand.CheckDeleteAgrees | src/commands/group.js:146-151 | for every group name except 'ungrouped', the code as written and the corrected check agree |
| GroupCommand.UngroupedGroupCannotBeDeleted | src/commands/group.js:146-151 | a group literally named 'ungrouped' is reported as having no monitors, whatever the answer |
| GroupCommand.UngroupConfirmation | src/commands/group.js:174-180 | without `--with-monitors`, the answers accepted are exactly those whose first non-blank character is y or Y |
| GroupCommand.LineFor | src/commands/group.js:77-85 | a group's block shows the labels of the first min(5, n) of its n looked-up monitors, in order, and "more" counts the remaining n − 5 when there are over five |
| GroupCommand.LineAgrees | src/commands/group.js:73-85 | the listing as written and the listing over each group's own members give the same block for every group not literally named 'ungrouped' |
| GroupCommand.ShownLabelsAreMembers | src/commands/group.js:74-85 | every label the corrected listing shows under a group belongs to a member of that group |
| GroupCommand.UngroupedGroupListsOtherMonitors | src/commands/group.js:74-85 | the listing as written shows an ungrouped monitor's label under a group named 'ungrouped' |
| GroupCommand.ListGroups | src/commands/group.js:60-91 | one block per group in `getGroups` order, each over the group's own members (the corrected lookup); the running total equals the number of grouped monitors; there are no blocks exactly when no monitor has a group |
| GroupCommand.HandleRename | src/commands/group.js:93-127 | the table changes only when every guard passes; then the group is renamed once and the count of renamed members is reported |
| GroupCommand.HandleDelete | src/commands/group.js:129-185 | with the corrected emptiness test (`CheckDelete`): nothing changes unless the group exists and the answer confirms; then the group no longer exists, and with `--with-monitors` its members go together with their heartbeats and certificates, while without it they are ungrouped and their history and certificates stay; the id counter never changes |
| GroupCommand.RunGroupCommand | src/commands/group.js:26-57 | the parsed action decides which handler runs, and the result carries that handler's outcome: the listing's blocks and grouped total, the rename guards and renamed rows, or the delete check and the dropped or ungrouped rows with their heartbeats and certificates; listing and an unknown action change nothing |
| DeleteCommand.ParseInt | src/commands/delete.js:26 | `parseInt(s, 10)` skips leading white space, reads an optional sign and the longest digit run; it is NaN exactly when there is no digit |
| DeleteCommand.ParseNumeral | src/commands/delete.js:25-27 | a list number, printed in decimal, parses back to itself |
| DeleteCommand.ParseIntText | src/commands/delete.js:26 | any integer, printed and parsed again, comes back unchanged |
| DeleteCommand.AtPosition | src/commands/delete.js:25-28 | the 1-based number selects a row exactly when it parses and lies between 1 and the row count |
| DeleteCommand.Find | src/commands/delete.js:22-24 | `find` returns the first row satisfying the test, and nothing exactly when no row does |
| DeleteCommand.SelectTarget | src/commands/delete.js:16-33 | usage is shown exactly when no selector is given; the name wins over the URL and the URL over the number; name and URL must match exactly, and the first matching row in table order is taken; the number selects the row at that 1-based position |
| DeleteCommand.SelectByOwnName | src/commands/delete.js:21-22 | selecting by a row's own unique name finds that row |
| DeleteCommand.SelectByListNumber | src/commands/delete.js:25-27 | selecting by the number shown beside a row finds that row |
| DeleteCommand.RunDelete | src/commands/delete.js:11-47 | usage or not found change nothing; otherwise the heartbeats go first and then the row, a failure keeps whatever already ran, and success reports the deleted monitor's label |
| Notifier.SendWebhook | src/core/notifier.js:9-27 | no delivery without a URL; otherwise one POST whose payload carries the event, the subject's name and URL, the time, and the status 'down' exactly for 'monitor_down' |
| Notifier.PayloadDropsExtraFields | src/core/notifier.js:13-20 | the payload depends on the subject's name and URL only, so `daysRemaining` is dropped |
| Notifier.Notify | src/core/notifier.js:48-122 | every alert notifies except an expiry more than 14 days away; each message starts with the display name; a webhook goes out exactly when there is a notification and the monitor has a webhook URL, and it carries the event name, name, URL and status |
| Notifier.SslTiers | src/core/notifier.js:74-88 | an expiry within 7 days (or past) is critical, 8 to 14 days is a warning, and beyond 14 there is no notification and no webhook |
| Notifier.SslTiersMonotone | src/core/notifier.js:78-86 | a certificate closer to expiry never gets a milder alert |
| Notifier.OnlyDownReportsDown | src/core/notifier.js:18 | the payload status is 'down' only for the monitor-down alert; the certificate alerts report 'up' |
| Dashboard.CountsCoverAll | src/ui/Dashboard.js:35-38 | the up count and the down count add up to the number of monitors |
| Dashboard.UnknownCountsAsDown | src/ui/Dashboard.js:38 | a monitor with unknown status is counted as down |
| Dashboard.StripScheme | src/ui/Dashboard.js:64 | a leading `https://` or `http://` is removed, and nothing else |
| Dashboard.DropPath | src/ui/Dashboard.js:64 | the result is a prefix of the input that ends just before the first '/' with no line break after it, or the whole input when there is no such '/' |
| Dashboard.FallbackHasNoSlash | src/ui/Dashboard.js:63-66 | for a URL without line breaks, the fallback host contains no '/' |
| Dashboard.FallbackOfSchemeHostPath | src/ui/Dashboard.js:64 | scheme, then a host without '/', then a path gives back the host |
| Dashboard.FallbackIdempotent | src/ui/Dashboard.js:64 | applying the fallback to its own result changes nothing |
| Dashboard.Truncate | src/ui/Dashboard.js:69-71 | a display URL longer than 20 becomes its first 10 characters, '...' and its last 7, 20 in all; shorter ones are unchanged |
| Dashboard.TruncateIdempotent | src/ui/Dashboard.js:69-71 | truncating twice is truncating once |
| Dashboard.RowOf | src/ui/Dashboard.js:56-94 | the name column is the name when set, else the host; only the URL column is truncated; the label is '✔ UP' exactly when the status is up, else '✖ DOWN'; no downtime shows 'None' without the last-check suffix, and any other downtime shows the suffix |
| Dashboard.DownMonitorRow | src/ui/Dashboard.js:79-93 | a monitor whose newest sample is down shows the down label and a "down since" cell |

## Findings

| source | as written | input that shows it | evidently intended | confidence | as-written member | corrected member |
|---|---|---|---|---|---|---|
| src/commands/group.js:146-151 | `handleDelete` tests whether a group is empty with `getMonitorsByGroup`, which reads the name 'ungrouped' as "monitors without a group" (tests/core/group.test.js:188) | one monitor in group 'ungrouped', none without a group; `group delete ungrouped --with-monitors` | the group's own members are counted, so the group can be deleted | not executed; medium, the group helpers come from the test file | GroupCommand.UngroupedGroupCannotBeDeleted | GroupCommand.CheckDelete |
| src/commands/group.js:74-85 | `listGroups` fetches each group's monitors with `getMonitorsByGroup`, so under a group named 'ungrouped' it lists the monitors that have no group | a monitor 'api' in group 'ungrouped' beside a monitor 'web' without a group; `group list` | the group's own members are shown | not executed; medium, the group helpers come from the test file | GroupCommand.UngroupedGroupListsOtherMonitors | GroupCommand.ShownLabelsAreMembers |

## Left out

- Timers, the clock and the network are out. `setInterval`/`clearInterval` become timer numbers. `Date.now` becomes an elapsed-time parameter. The axios, ping and DNS probes become a `Probe` value. The 10-second reconciliation tick and any overlap of checks in flight are out too.
- `initDB`, `getDB`, the WAL pragma and the column migration (src/core/db.js:13-62) are out. So are the `port` and `created_at` columns.
- `formatDistanceToNow`, `parseDBTimestamp` and `toFixed(2)` are out. The downtime is the selected time stamp. Uptime is the exact ratio.
- Console output, `chalk` colours and readline are out. Each command returns an outcome value, and the typed answer is a parameter.
- The desktop notification and HTTP calls of the notifier are out, together with their error logging, icon paths and ISO time stamps.
- The React/ink layout, the 1-second polling, key handling, WHATWG `URL` parsing and the `parseFloat` uptime colouring of the dashboard are out.
- src/commands/start.js, stop.js, clear.js, reset.js and status.js are not part of this model.
- Text.Lower: JavaScript's `toLowerCase` in the group and delete commands also folds non-ASCII letters, but the model folds ASCII only. This matches SQLite's `lower()`, which does the same comparisons in the database.
- Queries.LookupTrimmed: `%` and `_` typed by the user are LIKE wildcards in the fuzzy stages. The model matches them literally, as plain substrings.
- DeleteCommand.ParseInt: digit strings beyond 2^53 lose precision in JavaScript but are exact here.
- Dashboard.Truncate: the model counts code points, but JavaScript string lengths and `slice` count UTF-16 code units. The two differ only for characters outside the Basic Multilingual Plane.
- Heartbeat status has two values, because the worker is the only writer. 'unknown' is the absence of heartbeats (`Stats.CurrentStatus`).
- The test schema's `ON DELETE CASCADE` is not modelled: SQLite enforces foreign keys only when they are switched on. Every delete removes dependent rows explicitly, as the code does.
- GroupCommand.HandleDelete: runs the corrected check `CheckDelete`, not `CheckDeleteAsWritten`. For a group literally named 'ungrouped' while every monitor has a group, the code reports "has no monitors" and changes nothing. The model deletes or ungroups the group's members instead. `CheckDeleteAgrees` shows the two differ only for that name.
- GroupCommand.ListGroups: lists each group's own members (`LineOf`), not the rows `getMonitorsByGroup` returns (`GroupLineAsWritten`). Under a group literally named 'ungrouped', the code shows the monitors without a group. `LineAgrees` shows the two differ only for that name.
- GroupCommand.RunGroupCommand: its delete and list branches inherit the two corrections above.
- Queries.History: SQLite leaves the order of heartbeats with equal `CURRENT_TIMESTAMP` values (one-second resolution) unspecified. The model puts the newest insertion first. With ties, the current status, latency and downtime scan of the code may read a different row than the model does.
- Store.Database.UpdateMonitor: a `null` url, type or interval passes the `!== undefined` test and then makes the UPDATE throw on a NOT NULL column. `MonitorUpdate` cannot express a null for these fields, so that error path is not modelled.
- A monitor interval of at least 1 is not enforced. The code never checks it, and the model does not add the check.
