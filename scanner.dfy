/** The credential scanner: it loads `user:password` pairs, expands host
    templates for each team, tries every credential on every host, reports
    each success to the scoreboard and to the credential registry, and after
    every pass over the teams asks the registry to clear stale entries.

    The SSH client is an oracle: `codes(pass, k, task)` is the exit code the
    attempt of `task`, submitted at position `k` of its team's tasks in pass
    number `pass`, would get. Each attempt runs its own SSH process, so two
    identical attempts in one pass may get different codes. What the scanner
    sends to the scoreboard and the registry is the sequence of `Event`s it
    emits. */
module Scanner {
  import opened Text
  import opened CredentialRegistry

  datatype Option<T> = None | Some(value: T)

  /** One line of the credential file. */
  datatype Credential = Credential(user: string, password: string)

  /** One SSH attempt: a credential tried on a concrete host of a team. */
  datatype ProbeTask = ProbeTask(team: int, ip: string, user: string, password: string)

  /** The requests the scanner sends: a scoreboard report for a host, an
      update to the credential registry, and the request to clear it. */
  datatype Event = Score(ip: string) | Upsert(req: Request) | Clear

  /** The exit code of the SSH client for an attempt, by pass number and by
      the attempt's position among its team's tasks. */
  type ExitCodes = (nat, nat, ProbeTask) -> int

  /** The operation modes accepted on the command line. */
  datatype Mode = Single | Multiple | HostAcrossTeams

  /** The command-line settings the scan loop depends on. */
  datatype Config = Config(mode: Mode, teamNumber: int, numTeams: int, demo: bool)

  // ---------------------------------------------------------------------
  // Loading credentials
  // ---------------------------------------------------------------------

  /** `user, password = line.strip().split(':')`: defined only when the
      stripped line splits into exactly two pieces. */
  function ParseLine(line: string): Option<Credential> {
    var parts := Split(Strip(line), ':');
    if |parts| == 2 then Some(Credential(parts[0], parts[1])) else None
  }

  /** A line parses to (u, p) exactly when its stripped form is `u:p` with no
      other colon; it fails exactly when the stripped line has no colon or more than one. */
  lemma ParseLineSpec(line: string, c: Credential)
    ensures ParseLine(line) == Some(c) <==> Strip(line) == c.user + ":" + c.password && ':' !in c.user && ':' !in c.password
    ensures ParseLine(line) == None <==> Count(Strip(line), ':') != 1
  {
    SplitInTwo(Strip(line), ':', c.user, c.password);
  }

  /** The pairs loaded from the lines of the credential file: in file order,
      up to the first line that does not parse, where loading ends. */
  function Loaded(lines: seq<string>): seq<Credential> {
    if lines == [] then []
    else match ParseLine(lines[0])
      case None => []
      case Some(c) => [c] + Loaded(lines[1..])
  }

  /** The loaded pairs are the parses of the first lines of the file, in
      order, and the line after them, if any, is malformed. */
  lemma {:induction false} LoadedStopsAtFirstMalformed(lines: seq<string>, i: nat)
    ensures |Loaded(lines)| <= |lines|
    ensures i < |Loaded(lines)| ==> ParseLine(lines[i]) == Some(Loaded(lines)[i])
    ensures |Loaded(lines)| < |lines| ==> ParseLine(lines[|Loaded(lines)|]) == None
  {
    if lines != [] {
      match ParseLine(lines[0]) {
        case None =>
          assert Loaded(lines) == [];
        case Some(c) =>
          var rest := lines[1..];
          LoadedStopsAtFirstMalformed(rest, if i > 0 then i - 1 else 0);
          var loaded := Loaded(lines);
          assert loaded == [c] + Loaded(rest);
          if |loaded| < |lines| {
            assert lines[|loaded|] == rest[|Loaded(rest)|];
            assert ParseLine(lines[|loaded|]) == None;
          }
          if 0 < i < |loaded| {
            assert lines[i] == rest[i - 1];
          }
      }
    }
  }

  /** One step of loading from line `i` on. */
  lemma LoadedFrom(lines: seq<string>, i: nat)
    requires i < |lines|
    ensures Loaded(lines[i..]) == match ParseLine(lines[i])
      case None => []
      case Some(c) => [c] + Loaded(lines[i + 1..])
  {
    assert lines[i..][0] == lines[i] && lines[i..][1..] == lines[i + 1..];
  }

  /** Read the credential file line by line, appending each pair; the first
      malformed line raises, and the pairs read so far are returned. */
  method LoadCredentials(lines: seq<string>) returns (creds: seq<Credential>)
    ensures creds == Loaded(lines)
  {
    creds := [];
    var i := 0;
    while i < |lines|
      invariant 0 <= i <= |lines|
      invariant Loaded(lines) == creds + Loaded(lines[i..])
    {
      var parsed := ParseLine(lines[i]);
      LoadedFrom(lines, i);
      if parsed.None? {
        break;
      }
      creds := creds + [parsed.value];
      i := i + 1;
    }
  }

  // ---------------------------------------------------------------------
  // Host templates
  // ---------------------------------------------------------------------

  /** `template.replace('X', str(team))`: every `X` becomes the team number
      in decimal. No `X` is left over. */
  function Expand(template: string, team: int): (r: string)
    ensures 'X' !in r
  {
    if template == [] then []
    else (if template[0] == 'X' then IntToDecimal(team) else [template[0]]) + Expand(template[1..], team)
  }

  /** A template without the placeholder names the same host for every team. */
  lemma {:induction false} ExpandWithoutPlaceholder(template: string, team: int)
    requires 'X' !in template
    ensures Expand(template, team) == template
  {
    if template != [] {
      ExpandWithoutPlaceholder(template[1..], team);
      assert template == [template[0]] + template[1..];
    }
  }

  /** Replacing every `X` is the same as splitting at the `X`s and joining the
      pieces with the team number. */
  lemma {:induction false} ExpandIsJoinOfSplit(template: string, team: int)
    ensures Expand(template, team) == Join(Split(template, 'X'), IntToDecimal(team))
  {
    if template != [] {
      ExpandIsJoinOfSplit(template[1..], team);
      var rest := Split(template[1..], 'X');
      if template[0] == 'X' {
        assert ([[]] + rest)[1..] == rest;
      } else {
        JoinOfCons(template[0], rest, IntToDecimal(team));
      }
    }
  }

  // ---------------------------------------------------------------------
  // The tasks of one team
  // ---------------------------------------------------------------------

  /** The concrete hosts of a team, one per template, in template order. */
  function HostIps(templates: seq<string>, team: int): seq<string> {
    seq(|templates|, i requires 0 <= i < |templates| => Expand(templates[i], team))
  }

  /** Every credential on every host, host by host. */
  function CrossProduct(team: int, ips: seq<string>, creds: seq<Credential>): seq<ProbeTask> {
    if ips == [] then []
    else
      seq(|creds|, j requires 0 <= j < |creds| => ProbeTask(team, ips[0], creds[j].user, creds[j].password))
      + CrossProduct(team, ips[1..], creds)
  }

  /** The tasks submitted for one team. */
  function TeamTasks(templates: seq<string>, team: int, creds: seq<Credential>): seq<ProbeTask> {
    CrossProduct(team, HostIps(templates, team), creds)
  }

  /** One task per (host, credential) pair. */
  lemma {:induction false} CrossProductLength(team: int, ips: seq<string>, creds: seq<Credential>)
    ensures |CrossProduct(team, ips, creds)| == |ips| * |creds|
  {
    if ips != [] {
      CrossProductLength(team, ips[1..], creds);
      assert |ips| * |creds| == |creds| + (|ips| - 1) * |creds|;
    }
  }

  /** Task `i * |creds| + j` tries credential `j` on host `i`. */
  lemma {:induction false} CrossProductAt(team: int, ips: seq<string>, creds: seq<Credential>, i: nat, j: nat)
    requires i < |ips| && j < |creds|
    ensures i * |creds| + j < |CrossProduct(team, ips, creds)|
    ensures CrossProduct(team, ips, creds)[i * |creds| + j] == ProbeTask(team, ips[i], creds[j].user, creds[j].password)
  {
    var n := |creds|;
    if i > 0 {
      CrossProductAt(team, ips[1..], creds, i - 1, j);
      assert i * n + j == n + ((i - 1) * n + j);
      assert ips[1..][i - 1] == ips[i];
    }
  }

  /** Every task carries the team it was built for. */
  lemma {:induction false} CrossProductTeam(team: int, ips: seq<string>, creds: seq<Credential>)
    ensures forall k :: 0 <= k < |CrossProduct(team, ips, creds)| ==> CrossProduct(team, ips, creds)[k].team == team
  {
    if ips != [] {
      CrossProductTeam(team, ips[1..], creds);
    }
  }

  /** The tasks of a team are the cross-product of its hosts and the
      credentials, host-major: task `i * |creds| + j` tries credential `j` on
      the host that template `i` expands to for the team. */
  lemma TeamTasksAt(templates: seq<string>, team: int, creds: seq<Credential>, i: nat, j: nat)
    requires i < |templates| && j < |creds|
    ensures |TeamTasks(templates, team, creds)| == |templates| * |creds|
    ensures i * |creds| + j < |templates| * |creds|
    ensures TeamTasks(templates, team, creds)[i * |creds| + j]
      == ProbeTask(team, Expand(templates[i], team), creds[j].user, creds[j].password)
  {
    var ips := HostIps(templates, team);
    CrossProductLength(team, ips, creds);
    CrossProductAt(team, ips, creds, i, j);
    assert ips[i] == Expand(templates[i], team);
  }

  // ---------------------------------------------------------------------
  // Attempts and their reports
  // ---------------------------------------------------------------------

  /** The registry update a successful attempt sends. */
  function RequestOf(task: ProbeTask): Request {
    Request(task.team, task.ip, task.user, task.password)
  }

  /** An attempt succeeds when the SSH client exits with code 0; in demo mode
      the client is not run and every attempt succeeds. */
  predicate Succeeds(task: ProbeTask, k: nat, demo: bool, pass: nat, codes: ExitCodes) {
    demo || codes(pass, k, task) == 0
  }

  /** What one attempt reports: on success the scoreboard report for the host,
      then the registry update; on failure nothing. */
  function AttemptEvents(task: ProbeTask, k: nat, demo: bool, pass: nat, codes: ExitCodes): seq<Event> {
    if Succeeds(task, k, demo, pass, codes) then [Score(task.ip), Upsert(RequestOf(task))] else []
  }

  /** The reports of a list of attempts run one after the other. */
  function TasksEvents(tasks: seq<ProbeTask>, demo: bool, pass: nat, codes: ExitCodes): seq<Event> {
    if tasks == [] then []
    else TasksEvents(tasks[..|tasks| - 1], demo, pass, codes) + AttemptEvents(tasks[|tasks| - 1], |tasks| - 1, demo, pass, codes)
  }

  /** In demo mode every attempt succeeds: attempt `i` reports its host to the
      scoreboard and then its credential to the registry. */
  lemma {:induction false} DemoEveryAttemptSucceeds(tasks: seq<ProbeTask>, pass: nat, codes: ExitCodes, i: nat)
    ensures |TasksEvents(tasks, true, pass, codes)| == 2 * |tasks|
    ensures i < |tasks| ==>
      TasksEvents(tasks, true, pass, codes)[2 * i] == Score(tasks[i].ip) &&
      TasksEvents(tasks, true, pass, codes)[2 * i + 1] == Upsert(RequestOf(tasks[i]))
  {
    if tasks != [] {
      var init := tasks[..|tasks| - 1];
      DemoEveryAttemptSucceeds(init, pass, codes, i);
      if i < |init| {
        assert init[i] == tasks[i];
      }
    }
  }

  /** The reports of a list of attempts are exactly the reports of its attempts. */
  lemma {:induction false} TasksEventsMembers(tasks: seq<ProbeTask>, demo: bool, pass: nat, codes: ExitCodes, e: Event)
    ensures e in TasksEvents(tasks, demo, pass, codes) <==>
      exists i :: 0 <= i < |tasks| && e in AttemptEvents(tasks[i], i, demo, pass, codes)
  {
    if tasks != [] {
      var init := tasks[..|tasks| - 1];
      TasksEventsMembers(init, demo, pass, codes, e);
      if exists i :: 0 <= i < |tasks| && e in AttemptEvents(tasks[i], i, demo, pass, codes) {
        var i :| 0 <= i < |tasks| && e in AttemptEvents(tasks[i], i, demo, pass, codes);
        if i < |init| {
          assert init[i] == tasks[i];
        }
      }
      if exists i :: 0 <= i < |init| && e in AttemptEvents(init[i], i, demo, pass, codes) {
        var i :| 0 <= i < |init| && e in AttemptEvents(init[i], i, demo, pass, codes);
        assert init[i] == tasks[i];
      }
    }
  }

  /** A registry update is sent for exactly the successful attempts. */
  lemma {:induction false} UpsertSentIffSuccess(tasks: seq<ProbeTask>, demo: bool, pass: nat, codes: ExitCodes, q: Request)
    ensures Upsert(q) in TasksEvents(tasks, demo, pass, codes) <==>
      exists i :: 0 <= i < |tasks| && Succeeds(tasks[i], i, demo, pass, codes) && q == RequestOf(tasks[i])
  {
    TasksEventsMembers(tasks, demo, pass, codes, Upsert(q));
  }

  /** A scoreboard report is sent for exactly the hosts of successful attempts. */
  lemma {:induction false} ScoreSentIffSuccess(tasks: seq<ProbeTask>, demo: bool, pass: nat, codes: ExitCodes, ip: string)
    ensures Score(ip) in TasksEvents(tasks, demo, pass, codes) <==>
      exists i :: 0 <= i < |tasks| && Succeeds(tasks[i], i, demo, pass, codes) && ip == tasks[i].ip
  {
    TasksEventsMembers(tasks, demo, pass, codes, Score(ip));
  }

  /** Running the tasks of a team never sends a clear request. */
  lemma {:induction false} TasksSendNoClear(tasks: seq<ProbeTask>, demo: bool, pass: nat, codes: ExitCodes)
    ensures Clear !in TasksEvents(tasks, demo, pass, codes)
  {
    TasksEventsMembers(tasks, demo, pass, codes, Clear);
  }

  /** Identical attempts are separate SSH processes: when the first of two
      twin attempts succeeds and the second fails, exactly one report and
      one registry update are sent. */
  lemma TwinAttemptsReportOnce(t: ProbeTask, pass: nat, codes: ExitCodes)
    requires codes(pass, 0, t) == 0 && codes(pass, 1, t) != 0
    ensures TasksEvents([t, t], false, pass, codes) == [Score(t.ip), Upsert(RequestOf(t))]
  {
    var twins := [t, t];
    assert twins[..1] == [t] && [t][..0] == [];
    assert TasksEvents([t], false, pass, codes) == AttemptEvents(t, 0, false, pass, codes);
    assert AttemptEvents(t, 1, false, pass, codes) == [];
  }

  /** Run every task of one team and wait for all of them. The worker pool is
      modelled as a loop over the submitted tasks, in submission order. */
  method RunChecksForTeam(templates: seq<string>, team: int, creds: seq<Credential>, demo: bool, pass: nat, codes: ExitCodes)
    returns (events: seq<Event>)
    ensures events == TasksEvents(TeamTasks(templates, team, creds), demo, pass, codes)
  {
    var ips := HostIps(templates, team);
    var tasks := CrossProduct(team, ips, creds);
    events := [];
    for k := 0 to |tasks|
      invariant events == TasksEvents(tasks[..k], demo, pass, codes)
    {
      var task := tasks[k];
      var code := if demo then 0 else codes(pass, k, task);
      if code == 0 {
        events := events + [Score(task.ip), Upsert(RequestOf(task))];
      }
      assert tasks[..k + 1][..k] == tasks[..k];
    }
    assert tasks[..|tasks|] == tasks;
  }

  // ---------------------------------------------------------------------
  // The scan loop
  // ---------------------------------------------------------------------

  /** The teams of one pass: the designated team in single mode, otherwise
      `range(1, numTeams + 1)`. */
  function PassTeams(mode: Mode, teamNumber: int, numTeams: int): seq<int> {
    if mode == Single then [teamNumber]
    else seq(if numTeams > 0 then numTeams else 0, i => i + 1)
  }

  /** Outside single mode a pass visits the teams 1 to numTeams, each once, in
      ascending order, and none at all when numTeams is not positive. */
  lemma PassTeamsAscending(mode: Mode, teamNumber: int, numTeams: int)
    requires mode != Single
    ensures forall t :: t in PassTeams(mode, teamNumber, numTeams) <==> 1 <= t <= numTeams
    ensures forall i, j :: 0 <= i < j < |PassTeams(mode, teamNumber, numTeams)| ==>
      PassTeams(mode, teamNumber, numTeams)[i] < PassTeams(mode, teamNumber, numTeams)[j]
  {
    var r := PassTeams(mode, teamNumber, numTeams);
    forall t | 1 <= t <= numTeams
      ensures t in r
    {
      assert r[t - 1] == t;
    }
  }

  /** The reports of one pass: the teams one after the other. */
  function PassEvents(teams: seq<int>, templates: seq<string>, creds: seq<Credential>, demo: bool, pass: nat, codes: ExitCodes): seq<Event> {
    if teams == [] then []
    else
      var earlier := PassEvents(teams[..|teams| - 1], templates, creds, demo, pass, codes);
      earlier + TasksEvents(TeamTasks(templates, teams[|teams| - 1], creds), demo, pass, codes)
  }

  /** The requests of the first `passes` passes: each pass followed by one clear request. */
  function ScanLog(cfg: Config, templates: seq<string>, creds: seq<Credential>, codes: ExitCodes, passes: nat): seq<Event> {
    if passes == 0 then []
    else
      var earlier := ScanLog(cfg, templates, creds, codes, passes - 1);
      var teams := PassTeams(cfg.mode, cfg.teamNumber, cfg.numTeams);
      earlier + PassEvents(teams, templates, creds, cfg.demo, passes - 1, codes) + [Clear]
  }

  /** The number of clear requests among `events`. */
  function ClearCount(events: seq<Event>): nat {
    if events == [] then 0
    else ClearCount(events[..|events| - 1]) + (if events[|events| - 1] == Clear then 1 else 0)
  }

  lemma {:induction false} ClearCountAppend(a: seq<Event>, b: seq<Event>)
    ensures ClearCount(a + b) == ClearCount(a) + ClearCount(b)
    decreases |b|
  {
    if b != [] {
      ClearCountAppend(a, b[..|b| - 1]);
      assert (a + b)[..|a + b| - 1] == a + b[..|b| - 1];
    } else {
      assert a + b == a;
    }
  }

  lemma {:induction false} NoClearCount(events: seq<Event>)
    requires Clear !in events
    ensures ClearCount(events) == 0
  {
    if events != [] {
      NoClearCount(events[..|events| - 1]);
    }
  }

  /** A pass sends no clear request. */
  lemma {:induction false} PassSendsNoClear(teams: seq<int>, templates: seq<string>, creds: seq<Credential>, demo: bool, pass: nat, codes: ExitCodes)
    ensures Clear !in PassEvents(teams, templates, creds, demo, pass, codes)
  {
    if teams != [] {
      PassSendsNoClear(teams[..|teams| - 1], templates, creds, demo, pass, codes);
      TasksSendNoClear(TeamTasks(templates, teams[|teams| - 1], creds), demo, pass, codes);
    }
  }

  /** Exactly one clear request follows each pass: after `passes` passes there
      have been `passes` clear requests. */
  lemma {:induction false} OneClearPerPass(cfg: Config, templates: seq<string>, creds: seq<Credential>, codes: ExitCodes, passes: nat)
    ensures ClearCount(ScanLog(cfg, templates, creds, codes, passes)) == passes
  {
    if passes > 0 {
      OneClearPerPass(cfg, templates, creds, codes, passes - 1);
      var before := ScanLog(cfg, templates, creds, codes, passes - 1);
      var teams := PassTeams(cfg.mode, cfg.teamNumber, cfg.numTeams);
      var pass := PassEvents(teams, templates, creds, cfg.demo, passes - 1, codes);
      PassSendsNoClear(teams, templates, creds, cfg.demo, passes - 1, codes);
      NoClearCount(pass);
      ClearCountAppend(before, pass);
      ClearCountAppend(before + pass, [Clear]);
      assert [Clear][..0] == [];
    }
  }

  /** Every pass ends with the clear request: the log of one or more passes
      ends with one. */
  lemma LogEndsWithClear(cfg: Config, templates: seq<string>, creds: seq<Credential>, codes: ExitCodes, passes: nat)
    requires passes > 0
    ensures var log := ScanLog(cfg, templates, creds, codes, passes); log != [] && log[|log| - 1] == Clear
  {
  }

  /** One pass over the teams of the mode: the designated team in single
      mode, otherwise the teams 1 to numTeams in turn. */
  method RunPass(cfg: Config, templates: seq<string>, creds: seq<Credential>, pass: nat, codes: ExitCodes)
    returns (passLog: seq<Event>)
    ensures passLog == PassEvents(PassTeams(cfg.mode, cfg.teamNumber, cfg.numTeams), templates, creds, cfg.demo, pass, codes)
  {
    var teams := PassTeams(cfg.mode, cfg.teamNumber, cfg.numTeams);
    if cfg.mode == Single {
      passLog := RunChecksForTeam(templates, cfg.teamNumber, creds, cfg.demo, pass, codes);
      assert teams[..0] == [];
    } else {
      passLog := [];
      var team := 1;
      while team <= cfg.numTeams
        invariant 1 <= team <= |teams| + 1
        invariant passLog == PassEvents(teams[..team - 1], templates, creds, cfg.demo, pass, codes)
      {
        var events := RunChecksForTeam(templates, team, creds, cfg.demo, pass, codes);
        assert teams[team - 1] == team;
        assert teams[..team][..team - 1] == teams[..team - 1];
        passLog := passLog + events;
        team := team + 1;
      }
      assert teams[..|teams|] == teams;
    }
  }

  /** The main loop, bounded to `passes` passes: nothing runs unless both
      input files exist; otherwise load the credentials, then pass after pass
      run every team of the mode and ask the registry to clear. */
  method ScanLoop(cfg: Config, ipFileExists: bool, credsFileExists: bool, ipLines: seq<string>, credLines: seq<string>,
                  passes: nat, codes: ExitCodes)
    returns (log: seq<Event>)
    ensures !ipFileExists || !credsFileExists ==> log == []
    ensures ipFileExists && credsFileExists ==> log == ScanLog(cfg, ipLines, Loaded(credLines), codes, passes)
  {
    if !ipFileExists || !credsFileExists {
      return [];
    }
    var creds := LoadCredentials(credLines);
    var templates := ipLines;
    log := [];
    var pass := 0;
    while pass < passes
      invariant 0 <= pass <= passes
      invariant log == ScanLog(cfg, templates, creds, codes, pass)
    {
      var passLog := RunPass(cfg, templates, creds, pass, codes);
      log := log + passLog + [Clear];
      pass := pass + 1;
    }
  }

  // ---------------------------------------------------------------------
  // The scanner and the registry together
  // ---------------------------------------------------------------------

  /** The registry after it receives one request at time `now`. */
  function Apply(l: seq<Entry>, e: Event, now: int): seq<Entry> {
    match e
    case Score(_) => l
    case Upsert(q) => Upserted(l, q, now)
    case Clear => Pruned(l, now)
  }

  /** The registry after it has received `events` in order, all at time `now`. */
  function Replay(l: seq<Entry>, events: seq<Event>, now: int): seq<Entry>
    decreases |events|
  {
    if events == [] then l else Replay(Apply(l, events[0], now), events[1..], now)
  }

  /** Whatever the scanner sends, the registry never holds two entries for one (team, ip). */
  lemma {:induction false} ReplayKeepsKeysUnique(l: seq<Entry>, events: seq<Event>, now: int)
    requires KeysUnique(l)
    ensures KeysUnique(Replay(l, events, now))
    decreases |events|
  {
    if events != [] {
      match events[0] {
        case Score(_) =>
        case Upsert(q) => UpsertKeepsKeysUnique(l, q, now);
        case Clear => PruneKeepsKeysUnique(l, now);
      }
      ReplayKeepsKeysUnique(Apply(l, events[0], now), events[1..], now);
    }
  }
}
