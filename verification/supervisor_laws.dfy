/** Properties of the supervisor over single operations and over whole runs of events: the flag
    invariant, idempotence of stop and of the stop handler, the crash-versus-operator restart decision,
    and the forced-kill deadline. */
module SupervisorLaws {
  import opened Wrappers
  import JavaString
  import ServerData
  import ConsoleLog
  import Telegram
  import opened Supervisor

  /** Everything that can happen to the supervisor: calls from the web layer and the backup service,
      and events delivered by the process, the reader and the timers. */
  datatype Event =
    | Start(command: Option<string>, now: int, spawnOk: bool)
    | Stop(writeOk: bool)
    | Command(cmd: string, writeOk: bool)
    | Poll(hours: JavaString.Int32)
    | Tick(timerId: nat, listOk: bool, tpsOk: bool)
    | Line(line: string, now: int)
    | OutputEnd
    | Restart(now: int, spawnOk: bool)
    // the stop that armed a deadline addressed session `armedFor`; the deadline as written ignores it
    | Deadline(armedFor: nat)

  /** One event applied to the supervisor: the web layer's calls go to the `ServerService` operation of
      the same name, the process and timer events to the code that handles them. The forced-kill
      deadline runs as written: it kills whatever process is running when it fires. Only a start,
      asked for or scheduled after a crash, can spawn a process. */
  function Apply(s: Supervisor, e: Event, fmt: int -> string): (r: Step)
    ensures !e.Start? && !e.Restart? ==> Quiet(s, r)
    ensures e.Start? ==> r.next.command == e.command
    ensures e.Restart? ==> r.next.command == s.command
    ensures e.Deadline? ==> (r.effects == [ForceKill] <==> s.running)
  {
    match e
    case Start(command, now, spawnOk) => StartServer(s, command, now, fmt, spawnOk)
    case Stop(writeOk) => StopServer(s, writeOk)
    case Command(cmd, writeOk) => SendCommand(s, cmd, writeOk)
    case Poll(hours) => SetPollInterval(s, hours)
    case Tick(timerId, listOk, tpsOk) => StatsTick(s, timerId, listOk, tpsOk)
    case Line(line, now) => ReaderLine(s, line, now, fmt)
    case OutputEnd => ReaderEnd(s)
    case Restart(now, spawnOk) => RestartFired(s, now, fmt, spawnOk)
    case Deadline(armedFor) => ForceKillFiredAsWritten(s)
  }

  /** The events in order; the effects of all steps concatenated, the outcome of the last. */
  function Run(s: Supervisor, events: seq<Event>, fmt: int -> string): Step
    decreases |events|
  {
    if |events| == 0 then Step(s, [], Completed)
    else
      var first := Apply(s, events[0], fmt);
      var rest := Run(first.next, events[1..], fmt);
      Step(rest.next, first.effects + rest.effects, rest.outcome)
  }

  /* ---------------------------------------------------------------- the flag invariant */

  lemma StartKeepsValid(s: Supervisor, command: Option<string>, now: int, fmt: int -> string, spawnOk: bool)
    requires Valid(s)
    ensures Valid(StartServer(s, command, now, fmt, spawnOk).next)
  {
    if !s.running && command.Some? && spawnOk {
      var s3 := s.(command := command, userRequestedStop := false,
                   data := ServerData.SetServerStartTime(ServerData.Reset(s.data), now, now, fmt),
                   session := s.session + 1, reading := true, writerOpen := true, running := true);
      assert Valid(s3);
      assert StartServer(s, command, now, fmt, spawnOk).next == StartStatsTimer(s3).next;
    } else if s.running {
      assert StartServer(s, command, now, fmt, spawnOk).next == s.(command := command);
    } else {
      var s2 := s.(command := command, userRequestedStop := false,
                   data := ServerData.SetServerStartTime(ServerData.Reset(s.data), now, now, fmt));
      assert StartServer(s, command, now, fmt, spawnOk).next == s2;
    }
  }

  /** Every operation and event keeps `Valid`. */
  lemma ApplyKeepsValid(s: Supervisor, e: Event, fmt: int -> string)
    requires Valid(s)
    ensures Valid(Apply(s, e, fmt).next)
  {
    match e
    case Line(line, now) =>
      if s.reading && ServerData.ParseConsoleLine(s.data, line, now, fmt).Failure? {
        assert Valid(s.(log := ConsoleLog.AddLog(s.log, line), reading := false));
      }
    case OutputEnd =>
      if s.reading {
        var first := HandleServerStopped(s.(reading := false));
        assert Valid(first.next);
      }
    case Start(command, now, spawnOk) =>
      StartKeepsValid(s, command, now, fmt, spawnOk);
    case Restart(now, spawnOk) =>
      StartKeepsValid(s, s.command, now, fmt, spawnOk);
    case Stop(writeOk) =>
    case Command(cmd, writeOk) =>
    case Poll(hours) =>
    case Tick(timerId, listOk, tpsOk) =>
    case Deadline(armedFor) =>
  }

  lemma {:induction false} RunKeepsValid(s: Supervisor, events: seq<Event>, fmt: int -> string)
    requires Valid(s)
    ensures Valid(Run(s, events, fmt).next)
    decreases |events|
  {
    if |events| > 0 {
      ApplyKeepsValid(s, events[0], fmt);
      RunKeepsValid(Apply(s, events[0], fmt).next, events[1..], fmt);
    }
  }

  /** From construction on, in every reachable state: the stop flags agree, a stop future is pending
      exactly while stopping, stopping implies running, the writer is open exactly while running, and
      the console log stays within its bound. */
  lemma ReachableIsValid(events: seq<Event>, fmt: int -> string)
    ensures var s := Run(Initial(), events, fmt).next;
      && (s.stopping <==> s.userRequestedStop)
      && (s.stopFuture.Some? <==> s.stopping)
      && (s.stopping ==> s.running)
      && (s.running <==> s.writerOpen)
      && |s.log.entries| <= ConsoleLog.MaxLogSize
  {
    InitialIsValid();
    RunKeepsValid(Initial(), events, fmt);
  }

  /* ---------------------------------------------------------------- idempotence */

  /** A second `stopServer` while the first is pending changes nothing and writes nothing. */
  lemma StopIsIdempotent(s: Supervisor, writeOk1: bool, writeOk2: bool)
    ensures var first := StopServer(s, writeOk1);
      StopServer(first.next, writeOk2) == Step(first.next, [], Completed)
  {
  }

  /** Once `handleServerStopped` has acted, calling it again is a no-op: the reader's second call,
      from its `finally` block, neither completes a future nor schedules a restart again. */
  lemma HandleServerStoppedOnce(s: Supervisor)
    ensures var first := HandleServerStopped(s);
      HandleServerStopped(first.next) == Step(first.next, [], Completed)
  {
  }

  /* ---------------------------------------------------------------- crash versus operator stop */

  function CountRestarts(effects: seq<Effect>): nat {
    if |effects| == 0 then 0
    else (if effects[0].ArmRestart? then 1 else 0) + CountRestarts(effects[1..])
  }

  lemma {:induction false} CountRestartsConcat(a: seq<Effect>, b: seq<Effect>)
    ensures CountRestarts(a + b) == CountRestarts(a) + CountRestarts(b)
    decreases |a|
  {
    if |a| > 0 {
      assert (a + b)[1..] == a[1..] + b;
      CountRestartsConcat(a[1..], b);
    } else {
      assert a + b == b;
    }
  }

  /** An exit nobody asked for (the process crashed or was stopped from its own console) schedules
      exactly one restart, and that restart starts the server again with the last command. */
  lemma CrashRestartsOnce(s: Supervisor, now: int, fmt: int -> string)
    requires Valid(s) && s.running && !s.stopping && s.reading && s.command.Some?
    ensures var ended := ReaderEnd(s);
      && CountRestarts(ended.effects) == 1
      && !ended.next.running
      && RestartFired(ended.next, now, fmt, true).next.running
      && RestartFired(ended.next, now, fmt, true).effects[0] == Spawn(s.session + 1, s.command.value)
  {
    var first := HandleServerStopped(s.(reading := false));
    var close := [CloseWriter];
    assert first.effects == [ArmRestart(RestartDelay)] + close;
    CountRestartsConcat([ArmRestart(RestartDelay)], close);
    CountRestartsConcat([], [ArmRestart(RestartDelay)]);
  }

  /** A stop the operator (or the backup service) requested: when the output ends, the stop future is
      completed, nothing is restarted and the request flag is cleared, so `getServerStopFuture` hands
      out a completed future. */
  lemma RequestedStopDoesNotRestart(s: Supervisor)
    requires Valid(s) && s.running && !s.stopping && s.reading
    ensures var stopped := StopServer(s, true);
      var ended := ReaderEnd(stopped.next);
      && GetServerStopFuture(stopped.next) == Pending(s.nextId)
      && CompleteStopFuture(s.nextId) in ended.effects
      && CountRestarts(ended.effects) == 0
      && !ended.next.running && !ended.next.userRequestedStop
      && GetServerStopFuture(ended.next) == AlreadyCompleted
  {
    var stopped := StopServer(s, true);
    var first := HandleServerStopped(stopped.next.(reading := false));
    assert first.effects == [CompleteStopFuture(s.nextId)] + [CloseWriter];
    CountRestartsConcat([CompleteStopFuture(s.nextId)], [CloseWriter]);
    CountRestartsConcat([CloseWriter], []);
    CountRestartsConcat([CompleteStopFuture(s.nextId)] + [CloseWriter], []);
  }

  /* ---------------------------------------------------------------- statistics */

  /** The statistics message says "работает" exactly while the supervisor is running. */
  lemma StatsLabelFollowsRunning(s: Supervisor, timestamp: string)
    ensures Telegram.StatusLabel(GetStats(s, timestamp).status) == Telegram.RunningLabel <==> s.running
  {
  }

  /* ---------------------------------------------------------------- the forced-kill deadline */

  function CountSpawns(effects: seq<Effect>): nat {
    if |effects| == 0 then 0
    else (if effects[0].Spawn? then 1 else 0) + CountSpawns(effects[1..])
  }

  lemma {:induction false} CountSpawnsConcat(a: seq<Effect>, b: seq<Effect>)
    ensures CountSpawns(a + b) == CountSpawns(a) + CountSpawns(b)
    decreases |a|
  {
    if |a| > 0 {
      assert (a + b)[1..] == a[1..] + b;
      CountSpawnsConcat(a[1..], b);
    } else {
      assert a + b == b;
    }
  }

  lemma {:induction false} NoSpawnCountsZero(effects: seq<Effect>)
    requires forall e :: e in effects ==> !e.Spawn?
    ensures CountSpawns(effects) == 0
    decreases |effects|
  {
    if |effects| > 0 {
      assert effects[0] in effects;
      assert forall e :: e in effects[1..] ==> e in effects;
      NoSpawnCountsZero(effects[1..]);
    }
  }

  /** The session number counts the processes spawned: each step advances it by the spawns it asks for. */
  lemma ApplyCountsSpawns(s: Supervisor, e: Event, fmt: int -> string)
    ensures var r := Apply(s, e, fmt);
      r.next.session == s.session + CountSpawns(r.effects)
  {
    if e.Start? || e.Restart? {
      StartEventCountsSpawns(s, e, fmt);
    } else {
      QuietEventCountsSpawns(s, e, fmt);
    }
  }

  lemma StartEventCountsSpawns(s: Supervisor, e: Event, fmt: int -> string)
    requires e.Start? || e.Restart?
    ensures var r := Apply(s, e, fmt);
      r.next.session == s.session + CountSpawns(r.effects)
  {
    match e
    case Start(command, now, spawnOk) => StartCountsSpawns(s, command, now, fmt, spawnOk);
    case Restart(now, spawnOk) => StartCountsSpawns(s, s.command, now, fmt, spawnOk);
  }

  lemma QuietEventCountsSpawns(s: Supervisor, e: Event, fmt: int -> string)
    requires !e.Start? && !e.Restart?
    ensures var r := Apply(s, e, fmt);
      r.next.session == s.session + CountSpawns(r.effects)
  {
    match e
    case Stop(writeOk) => QuietCounts(s, StopServer(s, writeOk));
    case Command(cmd, writeOk) => QuietCounts(s, SendCommand(s, cmd, writeOk));
    case Poll(hours) => QuietCounts(s, SetPollInterval(s, hours));
    case Tick(timerId, listOk, tpsOk) => QuietCounts(s, StatsTick(s, timerId, listOk, tpsOk));
    case Line(line, now) => QuietCounts(s, ReaderLine(s, line, now, fmt));
    case OutputEnd => QuietCounts(s, ReaderEnd(s));
    case Deadline(armedFor) => QuietCounts(s, ForceKillFiredAsWritten(s));
  }

  /** A step that spawns nothing leaves the session number alone. */
  lemma QuietCounts(s: Supervisor, r: Step)
    requires Quiet(s, r)
    ensures r.next.session == s.session + CountSpawns(r.effects)
  {
    NoSpawnCountsZero(r.effects);
  }

  /** `startServer` spawns at most once, and advances the session number exactly when it does. */
  lemma StartCountsSpawns(s: Supervisor, command: Option<string>, now: int, fmt: int -> string, spawnOk: bool)
    ensures var r := StartServer(s, command, now, fmt, spawnOk);
      r.next.session == s.session + CountSpawns(r.effects)
  {
    var r := StartServer(s, command, now, fmt, spawnOk);
    if !s.running && command.Some? && spawnOk {
      var rest := r.effects[1..];
      assert r.effects == [r.effects[0]] + rest;
      assert forall x :: x in rest ==> !x.Spawn?;
      NoSpawnCountsZero(rest);
      CountSpawnsConcat([r.effects[0]], rest);
    } else {
      NoSpawnCountsZero(r.effects);
    }
  }

  lemma {:induction false} RunCountsSpawns(s: Supervisor, events: seq<Event>, fmt: int -> string)
    ensures var r := Run(s, events, fmt);
      r.next.session == s.session + CountSpawns(r.effects)
    decreases |events|
  {
    if |events| > 0 {
      var first := Apply(s, events[0], fmt);
      ApplyCountsSpawns(s, events[0], fmt);
      RunCountsSpawns(first.next, events[1..], fmt);
      CountSpawnsConcat(first.effects, Run(first.next, events[1..], fmt).effects);
    }
  }

  /** The deadline armed by a stop kills only the process that stop addressed: whatever happens between
      the stop and the deadline, a kill means no process was spawned in between. */
  lemma DeadlineSparesLaterProcesses(s: Supervisor, writeOk: bool, between: seq<Event>, fmt: int -> string)
    requires s.running && !s.stopping
    ensures var stopped := StopServer(s, writeOk);
      var later := Run(stopped.next, between, fmt);
      ForceKillFired(later.next, s.session).effects == [ForceKill] ==> CountSpawns(later.effects) == 0
  {
    var stopped := StopServer(s, writeOk);
    RunCountsSpawns(stopped.next, between, fmt);
  }

  /** The deadline as written: stop, exit within the minute, start again (the backup service's cycle),
      and the deadline armed by the stop kills the new process. The corrected deadline spares it. */
  lemma DeadlineAsWrittenKillsRestartedServer(fmt: int -> string)
    ensures var cmd := Some("java -jar server.jar");
      var started := StartServer(Initial(), cmd, 1000, fmt, true).next;
      var stopped := StopServer(started, true);
      var exited := ReaderEnd(stopped.next).next;
      var restarted := StartServer(exited, cmd, 20_000, fmt, true).next;
      && ArmForceKill(ForceKillDelay, started.session) in stopped.effects
      && restarted.running && restarted.session != started.session
      && ForceKillFiredAsWritten(restarted).effects == [ForceKill]
      && ForceKillFired(restarted, started.session).effects == []
  {
    var cmd := Some("java -jar server.jar");
    var started := StartServer(Initial(), cmd, 1000, fmt, true).next;
    assert started.running && started.writerOpen && !started.stopping && started.reading;
    var stopped := StopServer(started, true);
    assert stopped.effects == [Write("stop\n"), ArmForceKill(ForceKillDelay, started.session)];
  }
}
