# Credential scanner, credential dashboard and process snap — a Dafny model

This project models three small programs of a red-team toolkit and proves
properties of them.

- **The credential dashboard** (`ssh_check/app.py`). It keeps a process-wide
  list of records `(team, ip, user, password, last_updated)` and offers three
  endpoints. An update request overwrites the record with the same
  `(team, ip)` or appends a new one. A clear request drops every record that
  is one minute old or older. A list request returns the records.
  `registry.dfy` (module `CredentialRegistry`) models it as a class
  `Registry` whose field `entries` the update and clear methods reassign.
  Each method is proved against a specification function: `Upserted` for
  update and `Pruned` for clear. Lemmas then prove what those functions
  promise.
- **The credential scanner** (`ssh_check/check_creds.py`). It loads
  `user:password` pairs and expands each host template for a team by
  replacing every `X` with the team number. It then tries every credential
  on every host. Each success is reported to the scoreboard and to the
  dashboard. After every pass over the teams, the scanner asks the dashboard
  to clear stale records. `scanner.dfy` (module `Scanner`) models the loops
  as methods: `LoadCredentials`, `RunChecksForTeam`, `RunPass` and
  `ScanLoop`. Each is proved equal to a recursive specification function
  (`Loaded`, `TasksEvents`, `PassEvents` and `ScanLog`). The requests the
  scanner sends are a sequence of `Event`s: `Score(ip)`, `Upsert(request)`
  or `Clear`.
- **Python string operations** the scanner relies on: `str.strip()`,
  `str.split(':')` and `str(n)`. They are in `text.dfy` (module `Text`).
  The module also defines `Join` (`str.join`), which the scanner never
  calls. It is there only to state what `split` and `replace` mean:
  `JoinSplit` and `ExpandIsJoinOfSplit`.
- **The process snap** (`thanos/thanos_snap.py`). A linear congruential
  generator starts from seed 12345 and picks process ids from the process
  list until half the list's length has been chosen. It skips pids 0 and 1
  and pids already chosen, and the chosen pids are then killed in order.
  `snap.dfy` (module `Snap`) models the loop as the method `SelectVictims`,
  proved equal to the recursive function `Selection`. Lemmas prove that the
  selection is safe.

Conventions of the model:

- **Clock.** A timestamp is an integer number of microseconds, which is the
  resolution of the dashboard's clock readings. The clock is the `now`
  parameter of each dashboard operation. A record is fresh when
  `last_updated > now - 60 000 000`, which is `datetime.fromisoformat(...) >
  now - timedelta(minutes=1)` in microseconds.
- **SSH client.** It is an oracle `codes(pass, k, task)`: the exit code
  that attempt `task` gets in pass number `pass`, where `k` is the
  attempt's position among its team's submitted tasks. Every attempt runs
  its own SSH process. Two identical attempts, which arise from a repeated
  line in either input file, may therefore get different codes
  (`TwinAttemptsReportOnce`). In demo mode the code is taken to be 0, as in
  the source.
- **Worker pool.** The pool that runs one team's attempts is modelled as a
  loop over the submitted attempts, in submission order.
- **Inputs.** The files the scanner reads are given as their lines. The
  process list the snap reads is given as a sequence of pids.
- **Generator arithmetic.** Python's `%` with a positive modulus never
  returns a negative result, and neither does Dafny's, so the generator is
  written with `%`. Python integers are unbounded, like Dafny's `int`.

Credential loading stops at the first malformed line. A line is malformed
when its stripped form does not split into exactly two pieces at `:`. The
`ValueError` that `user, password = ...` raises for such a line
(`ssh_check/check_creds.py:78`) is caught outside the loop over the lines
(`ssh_check/check_creds.py:75-81`). Loading therefore ends at that line and
returns the pairs read before it; later lines are not read, even
well-formed ones. `Loaded` and `LoadCredentials` model this, and
`Scanner.LoadedStopsAtFirstMalformed` states it.

## Model

| member | source | states |
|---|---|---|
| CredentialRegistry.Registry.constructor | ssh_check/app.py:8-9 | the store starts as an empty list, so no key is held twice |
| CredentialRegistry.Registry.UpdateCreds | ssh_check/app.py:12-31 | the scan-and-overwrite loop leaves exactly `Upserted(old list, request, now)`, and the registry still holds at most one record per (team, ip) |
| CredentialRegistry.UpsertOverwritesFirstMatch | ssh_check/app.py:15-23 | when the first record with the request's (team, ip) is at index k, the update rewrites that record only: it gets the request's user, password and the new timestamp; the length and every other record are unchanged |
| CredentialRegistry.UpsertAppendsWhenAbsent | ssh_check/app.py:24-31 | when no record has the request's key, the update appends exactly one new record, stamped now, after the unchanged list |
| CredentialRegistry.UpsertKeepsKeysUnique | ssh_check/app.py:14-31 | an update never creates a second record for a (team, ip) key |
| CredentialRegistry.UpsertRecordsRequest | ssh_check/app.py:14-31 | after an update, the request's record with the new timestamp is in the list |
| CredentialRegistry.UpsertIdempotent | ssh_check/app.py:14-31 | two identical updates in a row give the list that the later one alone gives |
| CredentialRegistry.Registry.ClearCreds | ssh_check/app.py:35-38 | the new list is `Pruned(old list, now)`, and keys stay unique |
| CredentialRegistry.PrunedKeepsExactlyFresh | ssh_check/app.py:37-38 | every record younger than one minute keeps all its occurrences, and every other record loses all of them |
| CredentialRegistry.PruneDropsEntryAtThreshold | ssh_check/app.py:37-38 | a record exactly one minute old, or older, is removed (the comparison is strict) |
| CredentialRegistry.PrunedIsSubsequence | ssh_check/app.py:38 | clearing only deletes records; the survivors keep their relative order |
| CredentialRegistry.PrunedMembers | ssh_check/app.py:38 | every surviving record was in the list and is fresh |
| CredentialRegistry.PruneIdempotent | ssh_check/app.py:38 | clearing twice at the same instant removes nothing more |
| CredentialRegistry.PruneKeepsKeysUnique | ssh_check/app.py:38 | clearing never creates a second record for a key |
| CredentialRegistry.Registry.GetCreds | ssh_check/app.py:41-43 | the list endpoint returns the current records, unchanged |
| Text.TrimLeftRemovesLeadingSpace | ssh_check/check_creds.py:78 | the left half of `strip()` removes a run of whitespace from the front and stops at the first other character |
| Text.TrimRightRemovesTrailingSpace | ssh_check/check_creds.py:78 | the right half of `strip()` removes a run of whitespace from the end and stops at the last other character |
| Text.Split | ssh_check/check_creds.py:78 | `split(':')` gives one more piece than there are colons |
| Text.SplitPiecesLackSeparator | ssh_check/check_creds.py:78 | no piece of a split holds the separator |
| Text.JoinSplit | ssh_check/check_creds.py:78 | joining the pieces with the separator gives back the string |
| Text.SplitWithoutSeparator | ssh_check/check_creds.py:78 | a string without the separator splits into itself alone |
| Text.SplitAtFirstSeparator | ssh_check/check_creds.py:78 | the first separator ends the first piece |
| Text.SplitInTwo | ssh_check/check_creds.py:78 | a string splits into exactly `[u, p]` if and only if it is `u + sep + p` with no separator in `u` or `p` |
| Text.NatToDecimal | ssh_check/check_creds.py:85 | `str(n)` for `n >= 0` has at least one character, all of them digits, and no leading zero unless `n` is 0 |
| Text.NatToDecimalRoundTrip | ssh_check/check_creds.py:85 | the digits of `str(n)` read back as `n` |
| Text.IntToDecimal | ssh_check/check_creds.py:85 | `str(n)` consists of digits, with a leading minus sign allowed |
| Text.IntToDecimalRoundTrip | ssh_check/check_creds.py:85 | `str(n)` begins with `-` exactly when `n < 0`, and its digits read back as `abs(n)` |
| Scanner.ParseLineSpec | ssh_check/check_creds.py:78 | a line parses to (u, p) if and only if its stripped form is `u:p` with no other colon; it fails if and only if the stripped line does not hold exactly one colon |
| Scanner.LoadedStopsAtFirstMalformed | ssh_check/check_creds.py:73-82 | the loaded pairs are the parses of the first lines, in file order, at most one per line, and the line after them, if there is one, is malformed |
| Scanner.LoadCredentials | ssh_check/check_creds.py:73-82 | the loading loop returns exactly `Loaded(lines)` |
| Scanner.Expand | ssh_check/check_creds.py:84-85 | no `X` is left in an expanded template |
| Scanner.ExpandWithoutPlaceholder | ssh_check/check_creds.py:84-85 | a template without `X` names the same host for every team |
| Scanner.ExpandIsJoinOfSplit | ssh_check/check_creds.py:84-85 | `replace('X', str(team))` equals splitting at every `X` and joining the pieces with `str(team)` |
| Scanner.CrossProductLength | ssh_check/check_creds.py:91 | one task per (host, credential) pair |
| Scanner.CrossProductAt | ssh_check/check_creds.py:91 | task `i * |creds| + j` tries credential `j` on host `i` (hosts outer, credentials inner) |
| Scanner.CrossProductTeam | ssh_check/check_creds.py:91 | every task carries the team it was built for |
| Scanner.TeamTasksAt | ssh_check/check_creds.py:87-91 | a team has `|templates| * |creds|` tasks; task `i * |creds| + j` tries credential `j` on template `i` expanded for the team |
| Scanner.DemoEveryAttemptSucceeds | ssh_check/check_creds.py:34-47 | in demo mode attempt `i` reports its host to the scoreboard (event `2i`) and then its credential to the dashboard (event `2i + 1`), and nothing else is sent |
| Scanner.TasksEventsMembers | ssh_check/check_creds.py:87-94 | a request is sent while running a list of attempts if and only if one of the attempts sends it |
| Scanner.UpsertSentIffSuccess | ssh_check/check_creds.py:44-47 | a dashboard update for (team, ip, user, password) is sent if and only if some attempt with exactly those values succeeded (each attempt, at its own position, gets its own exit code) |
| Scanner.ScoreSentIffSuccess | ssh_check/check_creds.py:44-46 | a scoreboard report for a host is sent if and only if some attempt on that host succeeded |
| Scanner.TwinAttemptsReportOnce | ssh_check/check_creds.py:41-47 | two identical attempts in one pass are separate SSH runs: when the first succeeds and the second fails, exactly one scoreboard report and one update are sent |
| Scanner.TasksSendNoClear | ssh_check/check_creds.py:87-94 | running a team never sends a clear request |
| Scanner.RunChecksForTeam | ssh_check/check_creds.py:87-94 | the loop over a team's tasks sends exactly `TasksEvents` of the team's cross-product |
| Scanner.PassTeamsAscending | ssh_check/check_creds.py:125-126 | outside single mode a pass visits exactly the teams 1 to num_teams, in ascending order, and none when num_teams is not positive |
| Scanner.PassSendsNoClear | ssh_check/check_creds.py:123-127 | a pass over the teams sends no clear request |
| Scanner.OneClearPerPass | ssh_check/check_creds.py:122-128 | after `passes` passes exactly `passes` clear requests have been sent |
| Scanner.LogEndsWithClear | ssh_check/check_creds.py:122-128 | each pass ends with the clear request |
| Scanner.RunPass | ssh_check/check_creds.py:123-127 | one pass runs the designated team in single mode, otherwise teams 1 to num_teams in turn, and sends exactly `PassEvents` of those teams |
| Scanner.ScanLoop | ssh_check/check_creds.py:109-131 | nothing is sent when either input file is missing; otherwise the first `passes` passes send exactly `ScanLog`, using the credentials `Loaded` from the credential file |
| Scanner.ReplayKeepsKeysUnique | ssh_check/app.py:12-38 | whatever the scanner sends, the dashboard never holds two records for one (team, ip) |
| Snap.Random | thanos/thanos_snap.py:5-8 | a generator value is never negative and is below 999999999 |
| Snap.Pick | thanos/thanos_snap.py:28 | the selected entry is one of the listed pids |
| Snap.SafeStep | thanos/thanos_snap.py:30-33 | one pick keeps the kill list safe |
| Snap.SelectionStaysSafe | thanos/thanos_snap.py:17-35 | every iteration keeps the kill list safe, so the final list is safe |
| Snap.SelectionExtends | thanos/thanos_snap.py:30-33 | the loop only appends; what is chosen stays chosen, in order |
| Snap.SelectionIsSafe | thanos/thanos_snap.py:12-35 | the kill list holds only listed pids, never 0 or 1, no pid twice, and at most `len(procs) // 2` of them |
| Snap.Draw | thanos/thanos_snap.py:25-35 | one iteration advances the generator once and appends at most one pid; an appended pid is listed, above 1 and new; and the rest of the selection goes on from the new state |
| Snap.SelectVictims | thanos/thanos_snap.py:13-35 | the loop returns exactly `Selection(procs, 0, seed, [])`, stopping before the bound only once half the list is chosen |
| Snap.SnapProcesses | thanos/thanos_snap.py:10-40 | the pids killed, in order, are the selection from seed 12345, and that list is safe |
| Snap.NothingChosenFromShortList | thanos/thanos_snap.py:22-23 | with fewer than two processes nothing is chosen, so no index is taken modulo an empty list's length |

## Left out

- HTTP, Flask routing, JSON encoding and CORS of the dashboard are not modelled. Requests are the method calls, and responses are the methods' results.
- The dashboard's HTML page and the browser script that polls the list endpoint are not modelled. They only display data.
- Missing JSON fields are not modelled: `content.get(...)` would return `None` for them. A `Request` always carries all four fields.
- ISO-8601 formatting and parsing of timestamps are not modelled. Timestamps are integer microseconds, and `now` is a parameter, not a clock reading.
- Concurrency is not modelled. In the model the dashboard handles one request at a time, and the scanner's worker pool is a sequential loop in submission order. The order of one team's reports under real threads is not captured. `UpsertSentIffSuccess` and `ScoreSentIffSuccess` state membership, which does not depend on that order.
- UpsertKeepsKeysUnique: holds only when update requests are handled one at a time. `app.run(debug=True, ...)` (`ssh_check/app.py:106`) starts a threaded server. The scanner sends concurrent updates for the same (team, ip) when two credentials work on one host. Two concurrent `update_creds` calls can then both miss the key and both append.
- ReplayKeepsKeysUnique: for the same reason, it holds only for serialised handling of the requests.
- The SSH client, `sshpass` and the one-second demo delay are not modelled. An attempt's outcome is the oracle `codes`. An exception inside an attempt counts as a non-zero exit code: nothing is sent.
- The replies of the scoreboard and the dashboard, and their exceptions, are not modelled. The scanner ignores them apart from logging.
- Command-line parsing, the debug flag, `debug_print` and every `print` are not modelled. The settings are the `Config` value.
- Reading the files is not modelled. The template file's `read().splitlines()` and the credential file's line iteration are inputs given as sequences of lines.
- ScanLoop: the scanner's `while True` loop is bounded by the parameter `passes`. The model states the first `passes` passes, for any `passes`, rather than the infinite run.
- ScanLoop: `KeyboardInterrupt` and the catch-all handler around `main` are not modelled.
- ReplayKeepsKeysUnique: the dashboard receives every request at one instant `now`. Key uniqueness holds for any choice of `now` per request, but the lemma states a single one.
- The process list and `process.kill` of the snap are not modelled: the list is an input and the killed pids are the output. Equally, the progress messages printed on each iteration are not modelled.
- Snap.Random: Python's unbounded integers are modelled by Dafny's `int`, so there is no wrap-around to model. The bound stated is the range of the result only.
