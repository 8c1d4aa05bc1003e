/** The coordination `BackupService.createBackup` and `restoreBackup` perform around the archive work:
    stopping the server, waiting on its stop future, doing the work on the scheduler thread, starting
    the server again, settling the caller's future and reporting failures. The file work, the process
    and the notifications are abstract steps; how each call ends is an input. */
module BackupFlow {
  import opened Supervisor

  /** How the archive work ended: normally, with an `IOException` (a missing archive, an unwritable
      directory), or with an unchecked exception (the `UncheckedIOException` of a failed copy). */
  datatype WorkOutcome = Done | IoError | Unchecked

  /** How a `startServer` call ended: started, an `IOException` from spawning, or the
      `IllegalStateException` of a server that is already running. */
  datatype StartOutcome = Started | SpawnFailed | AlreadyStarted

  datatype FlowStep =
    | Stop                    // serverService.stopServer()
    | AwaitStop               // the continuation runs once the stop future completes
    | WriteArchive            // performBackupCreation
    | ExtractArchive          // performBackupRestoration
    | Start                   // serverService.startServer(serverService.getServerCommand())
    | NotifyStarting          // sendServerStartingNotification
    | NotifyRestoring         // sendServerBackupRestoringNotification
    | NotifyBackupFailed      // sendServerBackupCreatingFailedNotification
    | ReportBackupError       // handleBackupError
    | ReportRestoreError      // handleRestoreError
    | ReportRestartFailed     // the console line after an `IOException` from the second start
    | Complete                // the returned future completes normally
    | CompleteExceptionally   // the returned future completes with the failure
    | Escape                  // an unchecked exception leaves `createBackup` itself

  /** A step that settles the future the call returned. */
  predicate Settles(x: FlowStep) {
    x == Complete || x == CompleteExceptionally
  }

  /** The returned future is settled by step `i` and by no other step. */
  predicate SettledOnlyAt(steps: seq<FlowStep>, i: int) {
    && 0 <= i < |steps| && Settles(steps[i])
    && forall j :: 0 <= j < |steps| && Settles(steps[j]) ==> j == i
  }

  /* ---------------------------------------------------------------- createBackup */

  /** The catch block of the continuation: report, fail the future, start the server anyway; a
      failing spawn is reported on the console, an already running server makes the block itself
      throw, which nobody observes. */
  function AfterCreateFailure(restart: StartOutcome): (r: seq<FlowStep>)
    ensures |r| >= 3 && r[..3] == [ReportBackupError, CompleteExceptionally, Start]
  {
    [ReportBackupError, CompleteExceptionally, Start] +
      match restart
      case Started => [NotifyBackupFailed]
      case SpawnFailed => [ReportRestartFailed]
      case AlreadyStarted => []
  }

  /** `createBackup(type)`. A stopped server: the archive is written on the caller's thread, only an
      `IOException` is turned into a failed future. A running one: stop it, and once it has stopped
      write the archive, announce and start the server; any failure there goes to the catch block.
      `start` and `restart` are the outcomes of the first and of the catch block's `startServer`. */
  function CreateBackupSteps(running: bool, work: WorkOutcome, start: StartOutcome, restart: StartOutcome): (r: seq<FlowStep>)
    ensures !running ==> Stop !in r && AwaitStop !in r && Start !in r
    ensures running ==> |r| >= 3 && r[..3] == [Stop, AwaitStop, WriteArchive]
    ensures Escape in r <==> !running && work == Unchecked
  {
    if !running then
      [WriteArchive] +
        match work
        case Done => [Complete]
        case IoError => [CompleteExceptionally]
        case Unchecked => [Escape]
    else
      [Stop, AwaitStop, WriteArchive] +
        if work == Done then
          [NotifyStarting, Start] +
            if start == Started then [Complete] else AfterCreateFailure(restart)
        else AfterCreateFailure(restart)
  }

  /** The future `createBackup` returns is settled exactly once, unless an unchecked exception escapes
      the call itself; it completes normally exactly when the archive was written and, for a running
      server, the server started again. */
  lemma CreateSettlesOnce(running: bool, work: WorkOutcome, start: StartOutcome, restart: StartOutcome)
    ensures var r := CreateBackupSteps(running, work, start, restart);
      Escape !in r ==> exists i :: SettledOnlyAt(r, i)
    ensures var r := CreateBackupSteps(running, work, start, restart);
      Escape in r ==> forall j :: 0 <= j < |r| ==> !Settles(r[j])
    ensures var r := CreateBackupSteps(running, work, start, restart);
      Complete in r <==> work == Done && (running ==> start == Started)
  {
    if running {
      RunningCreateSettlesOnce(work, start, restart);
    } else {
      StoppedCreateSettlesOnce(work, start, restart);
    }
  }

  /** `CreateSettlesOnce` for a stopped server, where the archive is written on the caller's thread. */
  lemma StoppedCreateSettlesOnce(work: WorkOutcome, start: StartOutcome, restart: StartOutcome)
    ensures var r := CreateBackupSteps(false, work, start, restart);
      work != Unchecked ==> SettledOnlyAt(r, 1)
    ensures var r := CreateBackupSteps(false, work, start, restart);
      work == Unchecked ==> forall j :: 0 <= j < |r| ==> !Settles(r[j])
    ensures Complete in CreateBackupSteps(false, work, start, restart) <==> work == Done
  {
    var r := CreateBackupSteps(false, work, start, restart);
    match work
    case Done => assert r == [WriteArchive, Complete];
    case IoError => assert r == [WriteArchive, CompleteExceptionally];
    case Unchecked => assert r == [WriteArchive, Escape];
  }

  /** `CreateSettlesOnce` for a running server: the stop, archive and start chain settles the future
      once, in its last step or in the catch block. */
  lemma RunningCreateSettlesOnce(work: WorkOutcome, start: StartOutcome, restart: StartOutcome)
    ensures var r := CreateBackupSteps(true, work, start, restart);
      SettledOnlyAt(r, if work != Done then 4 else if start == Started then 5 else 6)
    ensures Complete in CreateBackupSteps(true, work, start, restart) <==> work == Done && start == Started
  {
    if work != Done {
      CreateFailedSteps(work, start, restart);
    } else if start == Started {
      CreateStartedSteps(work, start, restart);
    } else {
      CreateNotStartedSteps(work, start, restart);
    }
  }

  /** The archive work failed: the catch block settles the future. */
  lemma CreateFailedSteps(work: WorkOutcome, start: StartOutcome, restart: StartOutcome)
    requires work != Done
    ensures var r := CreateBackupSteps(true, work, start, restart);
      SettledOnlyAt(r, if work != Done then 4 else if start == Started then 5 else 6)
    ensures Complete in CreateBackupSteps(true, work, start, restart) <==> work == Done && start == Started
  {
    var r := CreateBackupSteps(true, work, start, restart);
    var head := [Stop, AwaitStop, WriteArchive];
    var failure := AfterCreateFailure(restart);
    assert r == head + failure;
    FailureSettlesAtOne(restart);
    SettledAfterHead(head, failure, 1);
  }

  /** Archive written and server started: the last step completes the future. */
  lemma CreateStartedSteps(work: WorkOutcome, start: StartOutcome, restart: StartOutcome)
    requires work == Done && start == Started
    ensures var r := CreateBackupSteps(true, work, start, restart);
      SettledOnlyAt(r, if work != Done then 4 else if start == Started then 5 else 6)
    ensures Complete in CreateBackupSteps(true, work, start, restart) <==> work == Done && start == Started
  {
    var r := CreateBackupSteps(true, work, start, restart);
    assert r == [Stop, AwaitStop, WriteArchive, NotifyStarting, Start, Complete];
  }

  /** Archive written but the start failed: the catch block settles the future. */
  lemma CreateNotStartedSteps(work: WorkOutcome, start: StartOutcome, restart: StartOutcome)
    requires work == Done && start != Started
    ensures var r := CreateBackupSteps(true, work, start, restart);
      SettledOnlyAt(r, if work != Done then 4 else if start == Started then 5 else 6)
    ensures Complete in CreateBackupSteps(true, work, start, restart) <==> work == Done && start == Started
  {
    var r := CreateBackupSteps(true, work, start, restart);
    var head := [Stop, AwaitStop, WriteArchive, NotifyStarting, Start];
    var failure := AfterCreateFailure(restart);
    assert r == head + failure;
    FailureSettlesAtOne(restart);
    SettledAfterHead(head, failure, 1);
  }

  /** Steps that settle nothing and complete nothing, put in front, only move the settling step. */
  lemma SettledAfterHead(head: seq<FlowStep>, tail: seq<FlowStep>, i: int)
    requires Complete !in head && CompleteExceptionally !in head
    requires SettledOnlyAt(tail, i)
    ensures SettledOnlyAt(head + tail, |head| + i)
    ensures Complete in head + tail <==> Complete in tail
  {
    var r := head + tail;
    forall j | 0 <= j < |r| && Settles(r[j]) ensures j == |head| + i {
      if j >= |head| {
        assert r[j] == tail[j - |head|];
      }
    }
  }

  /** The catch block settles the future in its second step only, and never completes it normally. */
  lemma FailureSettlesAtOne(restart: StartOutcome)
    ensures SettledOnlyAt(AfterCreateFailure(restart), 1)
    ensures Complete !in AfterCreateFailure(restart)
  {
    var r := AfterCreateFailure(restart);
    match restart
    case Started => assert r == [ReportBackupError, CompleteExceptionally, Start, NotifyBackupFailed];
    case SpawnFailed => assert r == [ReportBackupError, CompleteExceptionally, Start, ReportRestartFailed];
    case AlreadyStarted => assert r == [ReportBackupError, CompleteExceptionally, Start];
  }

  /** Whatever happens to the archive, a backup of a running server ends with an attempt to start it
      again, made only after the server stopped and the archive work ended. */
  lemma CreateRestartsAfterArchive(work: WorkOutcome, start: StartOutcome, restart: StartOutcome)
    ensures var r := CreateBackupSteps(true, work, start, restart);
      exists j :: 3 <= j < |r| && r[j] == Start
  {
    var r := CreateBackupSteps(true, work, start, restart);
    if work == Done {
      assert r[4] == Start;
    } else {
      assert r[5] == Start;
    }
  }

  /* ---------------------------------------------------------------- restoreBackup */

  /** The continuation of a restore on a running server: restore, start, announce; a failure anywhere
      is reported and fails the future, and the server is not started again. */
  function RestoreContinuation(work: WorkOutcome, start: StartOutcome): (r: seq<FlowStep>)
    ensures |r| >= 2 && r[..2] == [AwaitStop, ExtractArchive]
  {
    [AwaitStop, ExtractArchive] +
      if work != Done then [ReportRestoreError, CompleteExceptionally]
      else [Start] + if start == Started then [NotifyStarting, Complete] else [ReportRestoreError, CompleteExceptionally]
  }

  /** `restoreBackup(name, type)` as written: on a running server announce, stop and continue once
      stopped; on a stopped one restore on the caller's thread, every exception failing the future.
      Either way the method ends by announcing a start, which is sent before the continuation runs. */
  function RestoreBackupStepsAsWritten(running: bool, work: WorkOutcome, start: StartOutcome): (r: seq<FlowStep>)
    ensures NotifyStarting in r
    ensures !running ==> Start !in r && Stop !in r
  {
    if running then
      [NotifyRestoring, Stop, NotifyStarting] + RestoreContinuation(work, start)
    else
      [ExtractArchive] + (if work == Done then [Complete] else [ReportRestoreError, CompleteExceptionally])
        + [NotifyStarting]
  }

  /** The announcement as written does not follow a start: a restore of a stopped server, or a failed
      restore of a running one, announces a start that never comes. */
  lemma RestoreAsWrittenAnnouncesMissingStart(running: bool, work: WorkOutcome, start: StartOutcome)
    requires !running || work != Done
    ensures var r := RestoreBackupStepsAsWritten(running, work, start);
      NotifyStarting in r && Start !in r
  {
    var r := RestoreBackupStepsAsWritten(running, work, start);
    if running {
      assert r == [NotifyRestoring, Stop, NotifyStarting, AwaitStop, ExtractArchive, ReportRestoreError, CompleteExceptionally];
    }
  }

  /** `restoreBackup` with the start announced only by the continuation that performs the start. */
  function RestoreBackupSteps(running: bool, work: WorkOutcome, start: StartOutcome): (r: seq<FlowStep>)
    ensures running ==> |r| >= 4 && r[..4] == [NotifyRestoring, Stop, AwaitStop, ExtractArchive]
  {
    if running then
      [NotifyRestoring, Stop] + RestoreContinuation(work, start)
    else
      [ExtractArchive] + (if work == Done then [Complete] else [ReportRestoreError, CompleteExceptionally])
  }

  /** In the corrected restore a start is announced exactly when one succeeded, and right after it;
      the future is settled exactly once, by the last step, and completes normally exactly when
      everything worked. */
  lemma RestoreAnnouncesOnlyStarts(running: bool, work: WorkOutcome, start: StartOutcome)
    ensures var r := RestoreBackupSteps(running, work, start);
      NotifyStarting in r <==> running && work == Done && start == Started
    ensures var r := RestoreBackupSteps(running, work, start);
      forall i :: 0 <= i < |r| && r[i] == NotifyStarting ==> i > 0 && r[i - 1] == Start
    ensures var r := RestoreBackupSteps(running, work, start);
      SettledOnlyAt(r, |r| - 1) && (Complete in r <==> work == Done && (running ==> start == Started))
  {
    if running {
      RunningRestoreAnnouncesOnlyStarts(work, start);
    } else {
      StoppedRestoreAnnouncesOnlyStarts(work, start);
    }
  }

  /** `RestoreAnnouncesOnlyStarts` for a stopped server: no announcement, one settling step at the end. */
  lemma StoppedRestoreAnnouncesOnlyStarts(work: WorkOutcome, start: StartOutcome)
    ensures NotifyStarting !in RestoreBackupSteps(false, work, start)
    ensures var r := RestoreBackupSteps(false, work, start);
      SettledOnlyAt(r, |r| - 1) && (Complete in r <==> work == Done)
  {
    var r := RestoreBackupSteps(false, work, start);
    if work == Done {
      assert r == [ExtractArchive, Complete];
    } else {
      assert r == [ExtractArchive, ReportRestoreError, CompleteExceptionally];
    }
  }

  /** `RestoreAnnouncesOnlyStarts` for a running server. */
  lemma RunningRestoreAnnouncesOnlyStarts(work: WorkOutcome, start: StartOutcome)
    ensures NotifyStarting in RestoreBackupSteps(true, work, start) <==> work == Done && start == Started
    ensures var r := RestoreBackupSteps(true, work, start);
      forall i :: 0 <= i < |r| && r[i] == NotifyStarting ==> i > 0 && r[i - 1] == Start
    ensures var r := RestoreBackupSteps(true, work, start);
      SettledOnlyAt(r, |r| - 1) && (Complete in r <==> work == Done && start == Started)
  {
    if work != Done {
      RestoreFailedSteps(work, start);
    } else if start == Started {
      RestoreStartedSteps(work, start);
    } else {
      RestoreNotStartedSteps(work, start);
    }
  }

  /** A failed restore of a running server: reported, the future fails, no start. */
  lemma RestoreFailedSteps(work: WorkOutcome, start: StartOutcome)
    requires work != Done
    ensures NotifyStarting in RestoreBackupSteps(true, work, start) <==> work == Done && start == Started
    ensures var r := RestoreBackupSteps(true, work, start);
      forall i :: 0 <= i < |r| && r[i] == NotifyStarting ==> i > 0 && r[i - 1] == Start
    ensures var r := RestoreBackupSteps(true, work, start);
      SettledOnlyAt(r, |r| - 1) && (Complete in r <==> work == Done && start == Started)
  {
    var r := RestoreBackupSteps(true, work, start);
    assert r == [NotifyRestoring, Stop, AwaitStop, ExtractArchive, ReportRestoreError, CompleteExceptionally];
  }

  /** A restore of a running server that starts it again: the announcement follows the start. */
  lemma RestoreStartedSteps(work: WorkOutcome, start: StartOutcome)
    requires work == Done && start == Started
    ensures NotifyStarting in RestoreBackupSteps(true, work, start) <==> work == Done && start == Started
    ensures var r := RestoreBackupSteps(true, work, start);
      forall i :: 0 <= i < |r| && r[i] == NotifyStarting ==> i > 0 && r[i - 1] == Start
    ensures var r := RestoreBackupSteps(true, work, start);
      SettledOnlyAt(r, |r| - 1) && (Complete in r <==> work == Done && start == Started)
  {
    var r := RestoreBackupSteps(true, work, start);
    assert r == [NotifyRestoring, Stop, AwaitStop, ExtractArchive, Start, NotifyStarting, Complete];
  }

  /** A restore whose start fails: reported, the future fails, nothing announced. */
  lemma RestoreNotStartedSteps(work: WorkOutcome, start: StartOutcome)
    requires work == Done && start != Started
    ensures NotifyStarting in RestoreBackupSteps(true, work, start) <==> work == Done && start == Started
    ensures var r := RestoreBackupSteps(true, work, start);
      forall i :: 0 <= i < |r| && r[i] == NotifyStarting ==> i > 0 && r[i - 1] == Start
    ensures var r := RestoreBackupSteps(true, work, start);
      SettledOnlyAt(r, |r| - 1) && (Complete in r <==> work == Done && start == Started)
  {
    var r := RestoreBackupSteps(true, work, start);
    assert r == [NotifyRestoring, Stop, AwaitStop, ExtractArchive, Start, ReportRestoreError, CompleteExceptionally];
  }

  /* ---------------------------------------------------------------- with the supervisor */

  /** The stop, exit and start a backup puts a running server through: the stop hands out a pending
      future that the exit completes, the exit schedules no automatic restart, and the backup's own
      start, with the stored command (`getServerCommand`), is not refused and brings the server back. */
  lemma BackupCycleRestartsServer(s: Supervisor, now: int, fmt: int -> string)
    requires Valid(s) && s.running && !s.stopping && s.reading && s.command.Some?
    ensures var stopped := StopServer(s, true);
      var exited := ReaderEnd(stopped.next);
      var restarted := StartServer(exited.next, exited.next.command, now, fmt, true);
      && GetServerStopFuture(stopped.next) == Pending(s.nextId)
      && CompleteStopFuture(s.nextId) in exited.effects
      && (forall e :: e in exited.effects ==> !e.ArmRestart?)
      && restarted.outcome != Raised(AlreadyRunning)
      && restarted.next.running && restarted.next.command == s.command
  {
    var stopped := StopServer(s, true);
    var exited := ReaderEnd(stopped.next);
    assert exited.effects == [CompleteStopFuture(s.nextId), CloseWriter];
  }

  /** A backup requested while a stop is already pending does not stop twice: its `stopServer` changes
      nothing and it waits on the stop future already handed out. */
  lemma BackupDuringPendingStopWaits(s: Supervisor, writeOk: bool)
    requires Valid(s) && s.stopping
    ensures StopServer(s, writeOk) == Step(s, [], Completed)
    ensures GetServerStopFuture(s) == Pending(s.stopFuture.value)
  {
  }
}
