/** `ServerService`: the supervisor of the game-server process. The process, its output reader, the
    scheduler and the statistics timer are abstract: every operation is a pure step from one supervisor
    state to the next, listing the effects it asks of the outside world (spawn, write to the process,
    arm a timer, kill) and whether it returns normally or throws. Events the outside world delivers back
    (a console line, the end of the output stream, a timer firing) are steps of their own. */
module Supervisor {
  import opened Wrappers
  import JavaString
  import ServerData
  import ConsoleLog

  /** Delay of the forced kill armed by a stop, in milliseconds. */
  const ForceKillDelay := 60_000
  /** Delay of the automatic restart after an unrequested exit, in milliseconds. */
  const RestartDelay := 5_000
  /** Initial `pollIntervalHours`. */
  const DefaultPollHours: JavaString.Int32 := 3

  /** The statistics `Timer` held in `statsTimer`; `scheduled` is false when scheduling its task was
      refused, which leaves a timer that never ticks. */
  datatype StatsTimer = StatsTimer(id: nat, scheduled: bool)

  datatype Supervisor = Supervisor(
    running: bool,                // isServerRunning
    stopping: bool,               // isStopping
    userRequestedStop: bool,
    stopFuture: Option<nat>,      // serverStopFuture: the id of the pending future, None for null
    command: Option<string>,      // serverCommand, None for null
    writerOpen: bool,             // processWriter != null
    reading: bool,                // the output reader of the current process is alive
    pollIntervalHours: JavaString.Int32,
    statsTimer: Option<StatsTimer>,
    session: nat,                 // number of processes spawned so far
    nextId: nat,                  // source of fresh ids for futures and timers
    data: ServerData.Store,
    log: ConsoleLog.Log)

  /** What a step asks of the process, the scheduler and the timers. */
  datatype Effect =
    | Spawn(session: nat, command: string)
    | Write(text: string)
    | ArmForceKill(delayMs: nat, session: nat)
    | ForceKill
    | CompleteStopFuture(id: nat)
    | ArmRestart(delayMs: nat)
    | CloseWriter
    | CancelStatsTimer(id: nat)
    | ArmStatsTimer(id: nat, periodMs: int)
    | PublishStats

  datatype Failure = AlreadyRunning | NotRunning | IoFailure | IllegalPeriod | NullCommand

  datatype Outcome = Completed | Raised(failure: Failure)

  datatype Step = Step(next: Supervisor, effects: seq<Effect>, outcome: Outcome)

  /** A step that spawns no process and keeps the session number: every step except a start that
      succeeds. */
  predicate Quiet(s: Supervisor, r: Step) {
    r.next.session == s.session && forall x :: x in r.effects ==> !x.Spawn?
  }

  /** What `getServerStopFuture` hands out. */
  datatype StopFutureView = Pending(id: nat) | AlreadyCompleted

  /** The `ServerStats` record of `getStats`. */
  datatype Stats = Stats(onlinePlayers: string, tps: string, memory: string, upTime: string,
                         timestamp: string, status: string)

  function Initial(): Supervisor {
    Supervisor(false, false, false, None, None, false, false, DefaultPollHours, None, 0, 0,
               ServerData.Initial(), ConsoleLog.Empty())
  }

  /** The relations between the flags that every operation keeps. */
  predicate Valid(s: Supervisor) {
    && (s.stopping <==> s.userRequestedStop)
    && (s.stopFuture.Some? <==> s.stopping)
    && (s.stopping ==> s.running)
    && (s.running <==> s.writerOpen)
    && (s.stopFuture.Some? ==> s.stopFuture.value < s.nextId)
    && (s.statsTimer.Some? ==> s.statsTimer.value.id < s.nextId)
    && ConsoleLog.Bounded(s.log)
  }

  lemma InitialIsValid()
    ensures Valid(Initial())
    ensures !Initial().running && Initial().stopFuture.None? && Initial().data == ServerData.Initial()
  {
  }

  /* ---------------------------------------------------------------- statistics timer */

  /** The timer period: `pollIntervalHours * 3600` is an `int` product, widened to `long` before the
      multiplication by 1000. */
  function StatsPeriod(hours: JavaString.Int32): (r: int)
    ensures -596_523 <= hours <= 596_523 ==> r == hours as int * 3_600_000
    ensures r % 1000 == 0 && -0x8000_0000 * 1000 <= r < 0x8000_0000 * 1000
  {
    JavaString.Wrap32(hours as int * 3600) * 1000
  }

  /** Past 596523 hours the `int` product wraps: the period turns negative and the timer is refused,
      while an equally large negative interval wraps to a positive period. */
  lemma StatsPeriodWraps()
    ensures StatsPeriod(596_524) < 0
    ensures StatsPeriod(-596_524) > 0
  {
  }

  /** `startStatsTimer`: cancels the previous timer, creates a new one and schedules the statistics task
      at a fixed rate, with the period as first delay too. A period that is not positive makes
      `scheduleAtFixedRate` throw after the new timer has been created. */
  function StartStatsTimer(s: Supervisor): (r: Step)
    ensures r.next == s.(statsTimer := r.next.statsTimer, nextId := s.nextId + 1)
    ensures r.next.statsTimer.Some? && r.next.statsTimer.value.id == s.nextId
    ensures s.statsTimer.Some? ==> |r.effects| >= 1 && r.effects[0] == CancelStatsTimer(s.statsTimer.value.id)
    ensures s.statsTimer.None? ==> forall e :: e in r.effects ==> !e.CancelStatsTimer?
    ensures forall e :: e in r.effects ==> e.CancelStatsTimer? || e.ArmStatsTimer?
    ensures r.outcome == Completed <==> r.next.statsTimer.value.scheduled
    ensures r.outcome.Raised? ==> r.outcome.failure == IllegalPeriod
  {
    var cancel := if s.statsTimer.Some? then [CancelStatsTimer(s.statsTimer.value.id)] else [];
    var id := s.nextId;
    var period := StatsPeriod(s.pollIntervalHours);
    if period <= 0 then
      Step(s.(statsTimer := Some(StatsTimer(id, false)), nextId := id + 1), cancel, Raised(IllegalPeriod))
    else
      Step(s.(statsTimer := Some(StatsTimer(id, true)), nextId := id + 1), cancel + [ArmStatsTimer(id, period)], Completed)
  }

  /** `setPollInterval`: records the interval and restarts the statistics timer. */
  function SetPollInterval(s: Supervisor, hours: JavaString.Int32): (r: Step)
    ensures Quiet(s, r)
    ensures r.next.pollIntervalHours == hours && r.next.statsTimer.Some?
    ensures r.outcome == Completed <==> StatsPeriod(hours) > 0
    ensures r.outcome == Completed ==> ArmStatsTimer(s.nextId, StatsPeriod(hours)) in r.effects
    ensures r.outcome != Completed ==> r.outcome == Raised(IllegalPeriod) && !r.next.statsTimer.value.scheduled
    ensures 0 < hours <= 596_523 ==>
      r.outcome == Completed && ArmStatsTimer(s.nextId, hours as int * 3_600_000) in r.effects
    ensures -596_523 <= hours <= 0 ==> r.outcome == Raised(IllegalPeriod) && !r.next.statsTimer.value.scheduled
    ensures s.statsTimer.Some? ==> |r.effects| >= 1 && r.effects[0] == CancelStatsTimer(s.statsTimer.value.id)
  {
    StartStatsTimer(s.(pollIntervalHours := hours))
  }

  /** The statistics task runs its body: the tick belongs to the current, scheduled timer and the
      server is marked running. */
  predicate TickRuns(s: Supervisor, timerId: nat) {
    s.statsTimer == Some(StatsTimer(timerId, true)) && s.running
  }

  /** A tick of the statistics timer: while the server runs, `list` and then `tps` are sent and the
      statistics published. The first command that fails ends the tick, the exception being caught
      inside the task (`listOk`, `tpsOk` false: that write throws). Ticks of a cancelled or
      never-scheduled timer do nothing. */
  function StatsTick(s: Supervisor, timerId: nat, listOk: bool, tpsOk: bool): (r: Step)
    ensures Quiet(s, r)
    ensures r.next == s && r.outcome == Completed
    ensures r.effects <= [Write("list\n"), Write("tps\n"), PublishStats]
    ensures r.effects != [] <==> TickRuns(s, timerId) && s.writerOpen && listOk
    ensures Write("tps\n") in r.effects <==> TickRuns(s, timerId) && s.writerOpen && listOk && tpsOk
    ensures PublishStats in r.effects <==> TickRuns(s, timerId) && s.writerOpen && listOk && tpsOk
  {
    if !TickRuns(s, timerId) then Step(s, [], Completed)
    else
      var list := SendCommand(s, "list", listOk);
      assert "list" + "\n" == "list\n" && "tps" + "\n" == "tps\n";
      if list.outcome != Completed then Step(s, [], Completed)
      else
        var tps := SendCommand(s, "tps", tpsOk);
        if tps.outcome != Completed then Step(s, list.effects, Completed)
        else Step(s, list.effects + tps.effects + [PublishStats], Completed)
  }

  /* ---------------------------------------------------------------- commands */

  /** `sendCommand`: refused unless the server runs with an open writer; otherwise the command and a
      newline are written (`writeOk` false: the write throws `IOException`). */
  function SendCommand(s: Supervisor, cmd: string, writeOk: bool): (r: Step)
    ensures Quiet(s, r)
    ensures r.next == s
    ensures !s.running || !s.writerOpen ==> r == Step(s, [], Raised(NotRunning))
    ensures r.outcome == Completed <==> s.running && s.writerOpen && writeOk
    ensures r.outcome == Completed ==> r.effects == [Write(cmd + "\n")]
    ensures r.outcome != Completed ==> r.effects == []
  {
    if !s.running || !s.writerOpen then Step(s, [], Raised(NotRunning))
    else if !writeOk then Step(s, [], Raised(IoFailure))
    else Step(s, [Write(cmd + "\n")], Completed)
  }

  /* ---------------------------------------------------------------- start and stop */

  /** `startServer(command)`: stores the command first, then refuses when already running. Otherwise it
      clears `userRequestedStop`, resets the statistics, records the start time and spawns the process
      (a `null` command or a failing spawn throw at this point); on success the writer is opened, the
      server is marked running and the statistics timer restarted. */
  function StartServer(s: Supervisor, command: Option<string>, now: int, fmt: int -> string, spawnOk: bool): (r: Step)
    ensures r.next.command == command
    ensures s.running ==> r == Step(s.(command := command), [], Raised(AlreadyRunning))
    ensures !s.running ==> !r.next.userRequestedStop && r.next.data.startTime == now
    ensures !s.running ==>
      r.next.data.onlinePlayers == ServerData.NotAvailable && r.next.data.tps == ServerData.NotAvailable
      && r.next.data.memory == ServerData.NotAvailable
    ensures r.next.running <==> s.running || (command.Some? && spawnOk)
    ensures !s.running && command.Some? && spawnOk ==>
      && r.next.session == s.session + 1 && r.next.reading && r.next.writerOpen
      && |r.effects| >= 1 && r.effects[0] == Spawn(s.session + 1, command.value)
    ensures !(!s.running && command.Some? && spawnOk) ==> forall e :: e in r.effects ==> !e.Spawn?
  {
    var s1 := s.(command := command);
    if s.running then Step(s1, [], Raised(AlreadyRunning))
    else
      var s2 := s1.(userRequestedStop := false,
                    data := ServerData.SetServerStartTime(ServerData.Reset(s.data), now, now, fmt));
      if command.None? then Step(s2, [], Raised(NullCommand))
      else if !spawnOk then Step(s2, [], Raised(IoFailure))
      else
        var s3 := s2.(session := s.session + 1, reading := true, writerOpen := true, running := true);
        var t := StartStatsTimer(s3);
        Step(t.next, [Spawn(s3.session, command.value)] + t.effects, t.outcome)
  }

  /** `stopServer`: nothing unless running and not already stopping. Otherwise both stop flags are set,
      a fresh stop future installed and `stop` written to the process, arming the forced kill for this
      process after 60 s; a failing write kills the process at once. */
  function StopServer(s: Supervisor, writeOk: bool): (r: Step)
    ensures Quiet(s, r)
    ensures !s.running || s.stopping ==> r == Step(s, [], Completed)
    ensures s.running && !s.stopping ==>
      && r.next == s.(stopping := true, userRequestedStop := true, stopFuture := Some(s.nextId), nextId := s.nextId + 1)
      && (s.writerOpen && writeOk ==> r.effects == [Write("stop\n"), ArmForceKill(ForceKillDelay, s.session)])
      && (s.writerOpen && !writeOk ==> r.effects == [ForceKill])
  {
    if !s.running || s.stopping then Step(s, [], Completed)
    else
      var id := s.nextId;
      var s1 := s.(stopping := true, userRequestedStop := true, stopFuture := Some(id), nextId := id + 1);
      var sent := SendCommand(s1, "stop", writeOk);
      assert "stop" + "\n" == "stop\n";
      match sent.outcome
      case Completed => Step(s1, sent.effects + [ArmForceKill(ForceKillDelay, s.session)], Completed)
      case Raised(IoFailure) => Step(s1, [ForceKill], Completed)
      case Raised(f) => Step(s1, [], Raised(f))
  }

  /** `handleServerStopped`: acts only while the server is marked running. It clears the running and
      stopping flags, completes and drops the pending stop future, and closes the writer; an exit the
      operator did not ask for schedules one restart, a requested one only clears the request. */
  function HandleServerStopped(s: Supervisor): (r: Step)
    ensures Quiet(s, r)
    ensures r.outcome == Completed
    ensures !s.running ==> r == Step(s, [], Completed)
    ensures s.running ==>
      !r.next.running && !r.next.stopping && !r.next.userRequestedStop && r.next.stopFuture.None? && !r.next.writerOpen
    ensures s.running && s.stopFuture.Some? ==> CompleteStopFuture(s.stopFuture.value) in r.effects
    ensures ArmRestart(RestartDelay) in r.effects <==> s.running && !s.userRequestedStop
  {
    if !s.running then Step(s, [], Completed)
    else
      var complete := if s.stopFuture.Some? then [CompleteStopFuture(s.stopFuture.value)] else [];
      var restart := if !s.userRequestedStop then [ArmRestart(RestartDelay)] else [];
      var close := if s.writerOpen then [CloseWriter] else [];
      var next := s.(running := false, stopping := false, stopFuture := None,
                     userRequestedStop := false, writerOpen := false);
      Step(next, complete + restart + close, Completed)
  }

  /** `getServerStopFuture`: the pending future, or an already completed one when none is pending. */
  function GetServerStopFuture(s: Supervisor): (r: StopFutureView)
    ensures r == AlreadyCompleted <==> s.stopFuture.None?
    ensures r.Pending? ==> s.stopFuture == Some(r.id)
  {
    match s.stopFuture
    case None => AlreadyCompleted
    case Some(id) => Pending(id)
  }

  /** `getStats`: the stored values, the caller's timestamp, and "Running" exactly while running. */
  function GetStats(s: Supervisor, timestamp: string): (r: Stats)
    ensures r.status == "Running" <==> s.running
    ensures r.status == "Running" || r.status == "Stopped"
    ensures r.onlinePlayers == s.data.onlinePlayers && r.tps == s.data.tps && r.memory == s.data.memory
    ensures r.upTime == s.data.uptime
  {
    Stats(s.data.onlinePlayers, s.data.tps, s.data.memory, s.data.uptime, timestamp,
          if s.running then "Running" else "Stopped")
  }

  /* ---------------------------------------------------------------- events from the outside world */

  /** The output stream of the process ended: the reader calls `handleServerStopped` after its loop and
      again in its `finally` block. */
  function ReaderEnd(s: Supervisor): (r: Step)
    ensures Quiet(s, r)
    ensures !s.reading ==> r == Step(s, [], Completed)
    ensures s.reading ==> !r.next.reading
    ensures s.reading ==> r == HandleServerStopped(s.(reading := false))
  {
    if !s.reading then Step(s, [], Completed)
    else
      var first := HandleServerStopped(s.(reading := false));
      var second := HandleServerStopped(first.next);
      Step(second.next, first.effects + second.effects, Completed)
  }

  /** One line read from the process: it is appended to the console log and parsed. A line on which
      the players parser throws ends the reader loop, and only the `finally` block's
      `handleServerStopped` runs. */
  function ReaderLine(s: Supervisor, line: string, now: int, fmt: int -> string): (r: Step)
    ensures Quiet(s, r)
    ensures r.outcome == Completed
    ensures !s.reading ==> r == Step(s, [], Completed)
    ensures s.reading ==> r.next.log == ConsoleLog.AddLog(s.log, line)
    ensures s.reading && ServerData.ParseConsoleLine(s.data, line, now, fmt).Success? ==>
      r.next == s.(log := ConsoleLog.AddLog(s.log, line), data := ServerData.ParseConsoleLine(s.data, line, now, fmt).value)
      && r.effects == []
    ensures s.reading && ServerData.ParseConsoleLine(s.data, line, now, fmt).Failure? ==> !r.next.reading
  {
    if !s.reading then Step(s, [], Completed)
    else
      var s1 := s.(log := ConsoleLog.AddLog(s.log, line));
      match ServerData.ParseConsoleLine(s.data, line, now, fmt)
      case Success(d) => Step(s1.(data := d), [], Completed)
      case Failure(_) => HandleServerStopped(s1.(reading := false))
  }

  /** The scheduled restart: `startServer` with the last stored command. */
  function RestartFired(s: Supervisor, now: int, fmt: int -> string, spawnOk: bool): (r: Step)
    ensures r == StartServer(s, s.command, now, fmt, spawnOk)
    ensures r.next.command == s.command
  {
    StartServer(s, s.command, now, fmt, spawnOk)
  }

  /** The forced-kill deadline as written: it kills whatever process runs when it fires. */
  function ForceKillFiredAsWritten(s: Supervisor): (r: Step)
    ensures Quiet(s, r)
    ensures r.next == s && r.outcome == Completed
    ensures r.effects == [ForceKill] <==> s.running
    ensures !s.running ==> r.effects == []
  {
    if s.running then Step(s, [ForceKill], Completed) else Step(s, [], Completed)
  }

  /** The forced-kill deadline as intended: it kills only the process whose stop armed it, and only
      while that process is still marked running. */
  function ForceKillFired(s: Supervisor, armedFor: nat): (r: Step)
    ensures Quiet(s, r)
    ensures r.next == s && r.outcome == Completed
    ensures r.effects == [ForceKill] <==> s.running && s.session == armedFor
    ensures !(s.running && s.session == armedFor) ==> r.effects == []
  {
    if s.running && s.session == armedFor then Step(s, [ForceKill], Completed) else Step(s, [], Completed)
  }
}
