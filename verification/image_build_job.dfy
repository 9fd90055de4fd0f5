/**
 * The job that builds an image from a Dockerfile in the workspace
 * (`ImageBuildJob`). It counts the Dockerfile's instructions when it is
 * created, sizes its progress monitor to one unit per instruction plus
 * one, and relays the build's progress messages: an error cancels the
 * job and fails the build, a completing message refreshes the images, a
 * step message advances the monitor by one unit, and every message that
 * does not fail the build goes to the build console.
 *
 * The Docker connection's `buildImage` is an oracle: the messages it
 * hands to the job, in order, and the `DockerException` it may raise
 * once they are delivered. The message-bundle texts of the complete and
 * step markers are parameters.
 */
module ImageBuildJob {
  import opened JavaLang
  import Seqs
  import ImageBuildUtils
  import ImageBuildProgress

  type Message = ImageBuildProgress.Message
  type Markers = ImageBuildProgress.Markers

  /** The Eclipse progress monitor: the task size given to `beginTask`, the units worked, whether `done` was called. */
  datatype Monitor = Monitor(totalWork: int, worked: nat, done: bool)

  datatype Job = Job(
    imageName: string,
    operations: nat,                      // `numberOfBuildOperations`
    monitor: Option<Monitor>,             // the `progressMonitor` field, null until `run` assigns it
    cancelled: bool,
    imageRefreshes: nat,                  // calls to `getImages(true)`
    consoleClears: nat,
    log: seq<Option<string>>,             // messages written to the build console
    warnings: nat,                        // "Skipping empty Docker build file." entries in the error log
    errorsShown: nat)                     // error dialogs opened by `run`

  /** The constructor's outcome: the job, or the `DockerException` raised when the Dockerfile cannot be read. */
  datatype Created = Created(job: Job) | CountFailed

  /**
   * The constructor: the number of build operations is the Dockerfile's
   * instruction count; a failure to read the file becomes an exception.
   */
  method Create(imageName: string, dockerfile: Option<seq<string>>) returns (r: Created)
    ensures dockerfile.None? <==> r.CountFailed?
    ensures r.Created? ==> (r.job.operations == Seqs.Count(dockerfile.value, ImageBuildUtils.IsInstruction)
                            && r.job.imageName == imageName && r.job.monitor.None? && !r.job.cancelled
                            && r.job.log == [] && r.job.imageRefreshes == 0)
  {
    var counted := ImageBuildUtils.NumberOfLines(dockerfile);
    if counted.ReadFailed? {
      return CountFailed;
    }
    return Created(Job(imageName, counted.count, None, false, 0, 0, [], 0, 0));
  }

  /** The outcome of `processMessage`. */
  datatype Outcome =
    | Processed(job: Job)
    | BuildFailed(job: Job, imageName: string, error: string)   // `DockerImageBuildFailedException`
    | NullPointer                                              // a step reported to a job whose monitor is not set

  predicate Completes(m: Message, markers: Markers)
  {
    m.stream.Some? && StartsWith(m.stream.value, markers.complete)
  }

  /** A step message in the sense of the relay: it starts with the step marker and does not complete the build. */
  predicate IsStep(m: Message, markers: Markers)
  {
    m.error.None? && !Completes(m, markers) && m.stream.Some? && StartsWith(m.stream.value, markers.step)
  }

  /** `processMessage`. */
  function ProcessMessage(job: Job, m: Message, markers: Markers): (r: Outcome)
    ensures m.error.Some? <==> r.BuildFailed?
    ensures r.BuildFailed? ==> (r.job == job.(cancelled := true) && r.imageName == job.imageName
                                && r.error == m.error.value)
    ensures r.NullPointer? <==> IsStep(m, markers) && job.monitor.None?
    ensures r.Processed? ==> (r.job.log == job.log + [m.stream]
                              && r.job.imageRefreshes == job.imageRefreshes + (if Completes(m, markers) then 1 else 0)
                              && r.job.cancelled == job.cancelled
                              && r.job == job.(monitor := r.job.monitor, imageRefreshes := r.job.imageRefreshes, log := r.job.log)
                              && (job.monitor.Some? ==> (r.job.monitor.Some?
                                  && r.job.monitor.value.worked == job.monitor.value.worked + (if IsStep(m, markers) then 1 else 0)
                                  && r.job.monitor.value.totalWork == job.monitor.value.totalWork
                                  && r.job.monitor.value.done == job.monitor.value.done)))
  {
    if m.error.Some? then BuildFailed(job.(cancelled := true), job.imageName, m.error.value)
    else
      var status := m.stream;
      if status.Some? && StartsWith(status.value, markers.complete) then
        Processed(job.(imageRefreshes := job.imageRefreshes + 1, log := job.log + [status]))
      else if status.Some? && StartsWith(status.value, markers.step) then
        if job.monitor.None? then NullPointer
        else
          var mon := job.monitor.value;
          Processed(job.(monitor := Some(mon.(worked := mon.worked + 1)), log := job.log + [status]))
      else Processed(job.(log := job.log + [status]))
  }

  /**
   * `buildImage` handing its messages to the job one after another: the
   * job after the last one, or the first outcome that is not a processed
   * message (which stops the build).
   */
  function Deliver(job: Job, ms: seq<Message>, markers: Markers): Outcome
    decreases |ms|
  {
    if |ms| == 0 then Processed(job)
    else match ProcessMessage(job, ms[0], markers)
      case Processed(j) => Deliver(j, ms[1..], markers)
      case other => other
  }

  predicate NoErrors(ms: seq<Message>)
  {
    forall k :: 0 <= k < |ms| ==> ms[k].error.None?
  }

  lemma NoErrorsTail(ms: seq<Message>)
    requires |ms| > 0 && NoErrors(ms)
    ensures NoErrors(ms[1..])
  {
    assert forall k :: 0 <= k < |ms| - 1 ==> ms[1..][k] == ms[k + 1];
  }

  /** The number of step messages. */
  function Steps(ms: seq<Message>, markers: Markers): nat
  {
    Seqs.Count(ms, m => IsStep(m, markers))
  }

  /**
   * With the monitor set and no error among the messages, every message is
   * logged in order and the monitor advances by exactly the number of step
   * messages.
   */
  lemma DeliverCountsSteps(job: Job, ms: seq<Message>, markers: Markers)
    requires job.monitor.Some? && NoErrors(ms)
    ensures var r := Deliver(job, ms, markers);
            r.Processed? && r.job.log == job.log + ImageBuildProgress.Streams(ms) && r.job.monitor.Some?
            && r.job.monitor.value.worked == job.monitor.value.worked + Steps(ms, markers)
            && r.job.monitor.value.totalWork == job.monitor.value.totalWork
            && r.job.monitor.value.done == job.monitor.value.done
  {
    DeliverLogsAll(job, ms, markers);
    DeliverAdvancesMonitor(job, ms, markers);
  }

  /** Without errors and with the monitor set, every message reaches the console in order. */
  lemma {:induction false} DeliverLogsAll(job: Job, ms: seq<Message>, markers: Markers)
    requires job.monitor.Some? && NoErrors(ms)
    ensures var r := Deliver(job, ms, markers);
            r.Processed? && r.job.log == job.log + ImageBuildProgress.Streams(ms)
    decreases |ms|
  {
    if |ms| > 0 {
      var r0 := ProcessMessage(job, ms[0], markers);
      assert r0.Processed?;
      DeliverProcessed(job, ms, markers);
      NoErrorsTail(ms);
      DeliverLogsAll(r0.job, ms[1..], markers);
      ImageBuildProgress.StreamsCons(ms);
      Seqs.AppendAssociates(job.log, [ms[0].stream], ImageBuildProgress.Streams(ms[1..]));
    }
  }

  /** Without errors and with the monitor set, the monitor advances once per step message and is otherwise left alone. */
  lemma {:induction false} DeliverAdvancesMonitor(job: Job, ms: seq<Message>, markers: Markers)
    requires job.monitor.Some? && NoErrors(ms)
    ensures var r := Deliver(job, ms, markers);
            r.Processed? && r.job.monitor.Some?
            && r.job.monitor.value.worked == job.monitor.value.worked + Steps(ms, markers)
            && r.job.monitor.value.totalWork == job.monitor.value.totalWork
            && r.job.monitor.value.done == job.monitor.value.done
    decreases |ms|
  {
    if |ms| > 0 {
      var r0 := ProcessMessage(job, ms[0], markers);
      assert r0.Processed?;
      DeliverProcessed(job, ms, markers);
      NoErrorsTail(ms);
      DeliverAdvancesMonitor(r0.job, ms[1..], markers);
      StepsCons(ms, markers);
    }
  }

  /** Once the first message is processed, delivery goes on with the rest. */
  lemma DeliverProcessed(job: Job, ms: seq<Message>, markers: Markers)
    requires |ms| > 0 && ProcessMessage(job, ms[0], markers).Processed?
    ensures Deliver(job, ms, markers) == Deliver(ProcessMessage(job, ms[0], markers).job, ms[1..], markers)
  {
  }

  lemma StepsCons(ms: seq<Message>, markers: Markers)
    requires |ms| > 0
    ensures Steps(ms, markers) == (if IsStep(ms[0], markers) then 1 else 0) + Steps(ms[1..], markers)
  {
    Seqs.CountCons(ms, m => IsStep(m, markers));
  }

  /** An error among the messages fails the build, with that error, and the job ends cancelled. */
  lemma {:induction false} DeliverFailsOnError(job: Job, ms: seq<Message>, markers: Markers, i: nat)
    requires job.monitor.Some? && i < |ms| && ms[i].error.Some? && NoErrors(ms[..i])
    ensures var r := Deliver(job, ms, markers);
            r.BuildFailed? && r.error == ms[i].error.value && r.imageName == job.imageName && r.job.cancelled
            && r.job.errorsShown == job.errorsShown
    decreases i
  {
    var r0 := ProcessMessage(job, ms[0], markers);
    if i > 0 {
      assert ms[..i][0] == ms[0];
      assert r0.Processed?;
      assert ms[1..][..i - 1] == ms[..i][1..];
      NoErrorsTail(ms[..i]);
      DeliverFailsOnError(r0.job, ms[1..], markers, i - 1);
    }
  }

  /** What the connection's `buildImage` does with the job: the messages it delivers and the exception it may raise afterwards. */
  datatype Build = Build(messages: seq<Message>, failure: bool)

  /** The outcome of `run`. */
  datatype RunOutcome = Finished(job: Job) | RunNullPointer

  /**
   * The build of a non-empty Dockerfile: clear the console, adopt and begin
   * the monitor with `operations + 1` units, deliver the messages, and
   * open an error dialog when the build fails or the connection raises.
   * `beginTask` sets every field of the monitor this model keeps, so the
   * monitor `run` was given adds nothing here.
   */
  function BuildNonEmpty(job: Job, build: Build, markers: Markers): (r: Job)
    requires job.operations > 0
    ensures r.monitor.Some? && r.monitor.value.totalWork == job.operations + 1
    ensures r.consoleClears == job.consoleClears + 1 && r.warnings == job.warnings
  {
    var begun := job.(consoleClears := job.consoleClears + 1,
                      monitor := Some(Monitor(job.operations + 1, 0, false)));
    match Deliver(begun, build.messages, markers)
    case Processed(j) =>
      assert j.monitor.Some? && j.monitor.value.totalWork == job.operations + 1 && j.consoleClears == begun.consoleClears
             && j.warnings == job.warnings by {
        DeliverKeeps(begun, build.messages, markers);
      }
      if build.failure then j.(errorsShown := j.errorsShown + 1) else j
    case BuildFailed(j, _, _) =>
      assert j.monitor.Some? && j.monitor.value.totalWork == job.operations + 1 && j.consoleClears == begun.consoleClears
             && j.warnings == job.warnings by {
        DeliverKeeps(begun, build.messages, markers);
      }
      j.(errorsShown := j.errorsShown + 1)
    case NullPointer =>
      assert false by {
        DeliverKeeps(begun, build.messages, markers);
      }
      begun
  }

  /** Delivery never clears the monitor, keeps its size, and touches neither the console clears nor the warnings. */
  lemma {:induction false} DeliverKeeps(job: Job, ms: seq<Message>, markers: Markers)
    requires job.monitor.Some?
    ensures var r := Deliver(job, ms, markers);
            !r.NullPointer? && r.job.monitor.Some? && r.job.monitor.value.totalWork == job.monitor.value.totalWork
            && r.job.consoleClears == job.consoleClears && r.job.warnings == job.warnings
            && r.job.monitor.value.worked >= job.monitor.value.worked
    decreases |ms|
  {
    if |ms| > 0 {
      var r0 := ProcessMessage(job, ms[0], markers);
      if r0.Processed? {
        DeliverKeeps(r0.job, ms[1..], markers);
      }
    }
  }

  /** The monitor with `done` called, or the `NullPointerException` of calling it on a null field. */
  function MarkDone(job: Job): RunOutcome
  {
    if job.monitor.None? then RunNullPointer
    else Finished(job.(monitor := Some(job.monitor.value.(done := true))))
  }

  /**
   * `run` as written: an empty Dockerfile only logs a warning, and the
   * final `done` is called on the `progressMonitor` field, which only the
   * other branch assigns.
   */
  function RunAsWritten(job: Job, monitor: Monitor, build: Build, markers: Markers): RunOutcome
  {
    if job.operations == 0 then MarkDone(job.(warnings := job.warnings + 1))
    else MarkDone(BuildNonEmpty(job, build, markers))
  }

  /**
   * `run` as intended: an empty Dockerfile only logs a warning and the
   * monitor the job was given is marked done; otherwise the build runs
   * and the job's monitor ends done, sized `operations + 1`.
   */
  function Run(job: Job, monitor: Monitor, build: Build, markers: Markers): (r: RunOutcome)
    ensures r.Finished? && r.job.monitor.Some? && r.job.monitor.value.done
    ensures job.operations == 0 ==> (r.job == job.(warnings := job.warnings + 1, monitor := Some(monitor.(done := true))))
    ensures job.operations > 0 ==> (r.job.monitor.value.totalWork == job.operations + 1
                                    && r.job.consoleClears == job.consoleClears + 1 && r.job.warnings == job.warnings)
  {
    if job.operations == 0 then Finished(job.(warnings := job.warnings + 1, monitor := Some(monitor.(done := true))))
    else MarkDone(BuildNonEmpty(job, build, markers))
  }

  /** The defect: a freshly created job with an empty Dockerfile ends `run` with a `NullPointerException`. */
  lemma EmptyBuildFileAsWritten(job: Job, monitor: Monitor, build: Build, markers: Markers)
    requires job.operations == 0 && job.monitor.None?
    ensures RunAsWritten(job, monitor, build, markers) == RunNullPointer
    ensures Run(job, monitor, build, markers).Finished?
  {
  }

  /** For a non-empty Dockerfile the two agree. */
  lemma RunAgreesOnNonEmpty(job: Job, monitor: Monitor, build: Build, markers: Markers)
    requires job.operations > 0
    ensures RunAsWritten(job, monitor, build, markers) == Run(job, monitor, build, markers)
  {
  }

  /**
   * A build without errors that the connection completes: every message is
   * logged, the monitor ends done with one unit per step message out of
   * `operations + 1`, and no error dialog opens.
   */
  lemma CleanBuildWorksSteps(job: Job, monitor: Monitor, build: Build, markers: Markers)
    requires job.operations > 0 && NoErrors(build.messages) && !build.failure
    ensures var r := Run(job, monitor, build, markers);
            r.job.log == job.log + ImageBuildProgress.Streams(build.messages)
            && r.job.monitor.value.worked == Steps(build.messages, markers)
            && r.job.monitor.value.totalWork == job.operations + 1
            && r.job.errorsShown == job.errorsShown && r.job.cancelled == job.cancelled
  {
    var begun := job.(consoleClears := job.consoleClears + 1,
                      monitor := Some(Monitor(job.operations + 1, 0, false)));
    DeliverCountsSteps(begun, build.messages, markers);
    DeliverKeepsFlags(begun, build.messages, markers);
  }

  /** Without errors, delivery changes neither the cancellation flag nor the dialogs. */
  lemma {:induction false} DeliverKeepsFlags(job: Job, ms: seq<Message>, markers: Markers)
    requires job.monitor.Some? && NoErrors(ms)
    ensures var r := Deliver(job, ms, markers);
            r.Processed? && r.job.cancelled == job.cancelled && r.job.errorsShown == job.errorsShown
    decreases |ms|
  {
    if |ms| > 0 {
      var r0 := ProcessMessage(job, ms[0], markers);
      NoErrorsTail(ms);
      DeliverKeepsFlags(r0.job, ms[1..], markers);
    }
  }

  /** An error message fails the build: the job ends cancelled, with one error dialog and the monitor done. */
  lemma FailedBuildCancels(job: Job, monitor: Monitor, build: Build, markers: Markers, i: nat)
    requires job.operations > 0 && i < |build.messages| && build.messages[i].error.Some? && NoErrors(build.messages[..i])
    ensures var r := Run(job, monitor, build, markers);
            r.job.cancelled && r.job.errorsShown == job.errorsShown + 1 && r.job.monitor.value.done
  {
    var begun := job.(consoleClears := job.consoleClears + 1,
                      monitor := Some(Monitor(job.operations + 1, 0, false)));
    DeliverFailsOnError(begun, build.messages, markers, i);
  }
}
