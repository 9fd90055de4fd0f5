/**
 * The progress handler of an image build started from the Docker
 * Explorer view (`ImageBuildProgressHandler`): each progress message of
 * the build either fails it, starts the progress job, refreshes the
 * images when the build completes, or moves the job's percentage on to
 * the step the message reports; every message that does not fail the
 * build is logged to the build console. The message-bundle texts that
 * mark a completed build and a build step are parameters, and the
 * progress job is reduced to the percentages reported to it and whether
 * it was cancelled.
 */
module ImageBuildProgress {
  import opened JavaLang
  import Seqs

  /** The localised texts `ImageBuildComplete.msg` and `ImageBuildStep.msg`. */
  datatype Markers = Markers(complete: string, step: string)

  /** One progress message of the build: an error, or a line of the build's output stream (either may be null). */
  datatype Message = Message(error: Option<string>, stream: Option<string>)

  /** The progress job: the percentages reported to it, in order, and whether it was cancelled. */
  datatype ProgressJob = ProgressJob(percentages: seq<int>, cancelled: bool)

  datatype Handler = Handler(
    imageName: string,
    lines: int,
    job: Option<ProgressJob>,
    jobsScheduled: nat,
    imageRefreshes: nat,
    log: seq<Option<string>>)

  /** The outcome of `processMessage`. */
  datatype Outcome =
    | Processed(handler: Handler)
    | BuildFailed(handler: Handler, imageName: string, error: string)   // `DockerImageBuildFailedException`
    | NullPointer
    | NumberFormat                                                      // the step number is not a number
    | IndexOutOfBounds                                                  // nothing but spaces after the step marker

  /** The handler as the constructor leaves it: no job yet and an empty console. */
  function NewHandler(imageName: string, lines: int): (h: Handler)
    ensures h.job.None? && h.log == [] && h.lines == lines && h.imageName == imageName
  {
    Handler(imageName, lines, None, 0, 0, [])
  }

  /**
   * The percentage for step `n` of a Dockerfile of `lines` instructions:
   * `100 * (n + 1) / lines` in 64-bit arithmetic, narrowed to an `int`.
   */
  function StepPercentage(n: int, lines: int): (p: int)
    requires lines != 0
    ensures IsInt(p)
  {
    ToInt(JavaDiv(ToLong(100 * ToLong(n + 1)), lines))
  }

  /** The text after the last occurrence of the step marker. */
  function AfterLastStep(status: string, step: string): (rest: string)
    requires Contains(status, step)
    ensures exists i :: OccursAt(status, step, i) && rest == status[i + |step|..]
              && forall j :: i < j ==> !OccursAt(status, step, j)
  {
    var at := LastIndexOf(status, step);
    status[at + |step|..]
  }

  /**
   * A status that reports a step, with a job present: the number before
   * the first space after the last step marker sets the percentage, when
   * the Dockerfile has instructions.
   */
  function StepReport(h: Handler, status: string, step: string): (r: Outcome)
    requires h.job.Some? && Contains(status, step)
    ensures h.lines <= 0 ==> r == Processed(h)
    ensures r.Processed? && h.lines > 0 ==> exists n ::
              r.handler == h.(job := Some(h.job.value.(percentages := h.job.value.percentages + [StepPercentage(n, h.lines)])))
  {
    if h.lines <= 0 then Processed(h)
    else
      var tokens := Split(AfterLastStep(status, step), ' ');
      if |tokens| == 0 then IndexOutOfBounds
      else match ParseLong(tokens[0])
        case None => NumberFormat
        case Some(n) =>
          var job := h.job.value;
          Processed(h.(job := Some(job.(percentages := job.percentages + [StepPercentage(n, h.lines)]))))
  }

  /**
   * `processMessage`. With `guarded` false it is the code as written,
   * whose error path cancels the progress job without checking that one
   * exists; with `guarded` true the error path cancels a job only when
   * there is one, so an error always becomes a build failure.
   */
  function ProcessMessageFrom(h: Handler, m: Message, markers: Markers, guarded: bool): Outcome
  {
    if m.error.Some? then
      if h.job.None? then (if guarded then BuildFailed(h, h.imageName, m.error.value) else NullPointer)
      else BuildFailed(h.(job := Some(h.job.value.(cancelled := true))), h.imageName, m.error.value)
    else
      var status := m.stream;
      var completes := status.Some? && StartsWith(status.value, markers.complete);
      var logged := (r: Outcome) => if r.Processed? then Processed(r.handler.(log := r.handler.log + [status])) else r;
      if h.job.None? then
        if completes then logged(Processed(h.(imageRefreshes := h.imageRefreshes + 1)))
        else logged(Processed(h.(job := Some(ProgressJob([], false)), jobsScheduled := h.jobsScheduled + 1)))
      else if completes then
        var job := h.job.value;
        logged(Processed(h.(job := Some(job.(percentages := job.percentages + [100])), imageRefreshes := h.imageRefreshes + 1)))
      else if status.Some? && Contains(status.value, markers.step) then logged(StepReport(h, status.value, markers.step))
      else logged(Processed(h))
  }

  /** `processMessage` as written. */
  function ProcessMessageAsWritten(h: Handler, m: Message, markers: Markers): Outcome
  {
    ProcessMessageFrom(h, m, markers, false)
  }

  /** `processMessage` with the error path guarded against a missing job. */
  function ProcessMessage(h: Handler, m: Message, markers: Markers): (r: Outcome)
    ensures m.error.Some? ==> r.BuildFailed? && r.imageName == h.imageName && r.error == m.error.value
                              && (h.job.Some? ==> r.handler.job.Some? && r.handler.job.value.cancelled)
    ensures m.error.None? ==> !r.BuildFailed? && !r.NullPointer?
    ensures r.Processed? ==> r.handler.log == h.log + [m.stream] && r.handler.imageName == h.imageName
                             && r.handler.lines == h.lines
  {
    ProcessMessageFrom(h, m, markers, true)
  }

  /** The defect of the error path: an error before any progress job exists raises a `NullPointerException` instead of the build failure. */
  lemma ErrorBeforeJobAsWritten(h: Handler, error: string, stream: Option<string>, markers: Markers)
    requires h.job.None?
    ensures ProcessMessageAsWritten(h, Message(Some(error), stream), markers) == NullPointer
    ensures ProcessMessage(h, Message(Some(error), stream), markers) == BuildFailed(h, h.imageName, error)
  {
  }

  /** Where both agree: once a job exists, or for a message without an error. */
  lemma AsWrittenAgreesWithJob(h: Handler, m: Message, markers: Markers)
    requires h.job.Some? || m.error.None?
    ensures ProcessMessageAsWritten(h, m, markers) == ProcessMessage(h, m, markers)
  {
  }

  /**
   * Without a job, a message that does not complete the build schedules
   * exactly one job, which has no percentage yet; a completing message
   * only refreshes the images.
   */
  lemma FirstMessageStartsJob(h: Handler, status: Option<string>, markers: Markers)
    requires h.job.None?
    ensures var r := ProcessMessage(h, Message(None, status), markers);
            r.Processed?
            && (if status.Some? && StartsWith(status.value, markers.complete)
                then r.handler.job.None? && r.handler.imageRefreshes == h.imageRefreshes + 1
                     && r.handler.jobsScheduled == h.jobsScheduled
                else r.handler.job == Some(ProgressJob([], false)) && r.handler.jobsScheduled == h.jobsScheduled + 1
                     && r.handler.imageRefreshes == h.imageRefreshes)
  {
  }

  /** With a job, a completing message reports 100% and refreshes the images. */
  lemma CompleteReportsHundred(h: Handler, status: string, markers: Markers)
    requires h.job.Some? && StartsWith(status, markers.complete)
    ensures var r := ProcessMessage(h, Message(None, Some(status)), markers);
            r.Processed? && r.handler.job.Some?
            && r.handler.job.value.percentages == h.job.value.percentages + [100]
            && r.handler.imageRefreshes == h.imageRefreshes + 1
  {
  }

  /**
   * With a job and a Dockerfile of `lines > 0` instructions, a step
   * message whose last step marker is followed by the number `n` and a
   * space reports `100 * (n + 1) / lines`.
   */
  lemma StepReportsPercentage(h: Handler, before: string, n: nat, after: string, markers: Markers)
    requires h.job.Some? && h.lines > 0 && IsLong(n)
    requires !StartsWith(before + markers.step + NatToString(n) + " " + after, markers.complete)
    requires forall j :: j > |before| ==> !OccursAt(before + markers.step + NatToString(n) + " " + after, markers.step, j)
    ensures var r := ProcessMessage(h, Message(None, Some(before + markers.step + NatToString(n) + " " + after)), markers);
            r.Processed? && r.handler.job.Some?
            && r.handler.job.value.percentages == h.job.value.percentages + [StepPercentage(n, h.lines)]
  {
    var tail := NatToString(n) + " " + after;
    var status := before + markers.step + NatToString(n) + " " + after;
    assert status == before + markers.step + tail;
    LastStepAt(before, markers.step, tail);
    NumberBeforeSpace(n, after);
    StepMessage(h, status, n, markers);
  }

  /** A step message whose number after the last marker reads as `n` adds the percentage for step `n`. */
  lemma StepMessage(h: Handler, status: string, n: int, markers: Markers)
    requires h.job.Some? && h.lines > 0
    requires !StartsWith(status, markers.complete) && Contains(status, markers.step)
    requires var tokens := Split(AfterLastStep(status, markers.step), ' ');
             |tokens| > 0 && ParseLong(tokens[0]) == Some(n)
    ensures var r := ProcessMessage(h, Message(None, Some(status)), markers);
            r.Processed? && r.handler.job.Some?
            && r.handler.job.value.percentages == h.job.value.percentages + [StepPercentage(n, h.lines)]
  {
    var r := StepReport(h, status, markers.step);
    assert r.Processed? && r.handler.job.value.percentages == h.job.value.percentages + [StepPercentage(n, h.lines)];
  }

  /** When the marker does not occur past `before`, the text after the last marker is `tail`. */
  lemma LastStepAt(before: string, step: string, tail: string)
    requires forall j :: j > |before| ==> !OccursAt(before + step + tail, step, j)
    ensures Contains(before + step + tail, step)
    ensures AfterLastStep(before + step + tail, step) == tail
  {
    var status := before + step + tail;
    assert status[|before|..|before| + |step|] == step;
    assert OccursAt(status, step, |before|);
    var at := LastIndexOf(status, step);
    assert at == |before|;
    assert status[at + |step|..] == tail;
  }

  /** The first space-separated token of `n + " " + after` is the number `n`, read back as a long. */
  lemma NumberBeforeSpace(n: nat, after: string)
    requires IsLong(n)
    ensures var tokens := Split(NatToString(n) + " " + after, ' ');
            |tokens| > 0 && ParseLong(tokens[0]) == Some(n)
  {
    var w := NatToString(n);
    assert ' ' !in w;
    FirstFieldOfSplit(w, after);
    ParseLongOfIntToString(n);
  }

  /** Splitting `word + " " + rest` at spaces gives `word` first, when `word` is a non-empty run without spaces. */
  lemma FirstFieldOfSplit(word: string, rest: string)
    requires |word| > 0 && ' ' !in word
    ensures var tokens := Split(word + " " + rest, ' ');
            |tokens| > 0 && tokens[0] == word
  {
    var s := word + " " + rest;
    assert s[|word|] == ' ';
    assert IndexOfChar(s, ' ') == |word| by {
      assert s[..|word|] == word;
    }
    assert s[..|word|] == word;
    var f := Fields(s, ' ');
    assert f[0] == word;
  }

  /**
   * While the step number stays below the number of instructions, the
   * percentage is `100 * (n + 1) / lines`, lies between 0 and 100 and
   * grows with the step.
   */
  lemma StepPercentageBounded(n: int, m: int, lines: int)
    requires 0 <= n <= m && m + 1 <= lines <= INT_MAX
    ensures StepPercentage(n, lines) == 100 * (n + 1) / lines
    ensures 0 <= StepPercentage(n, lines) <= StepPercentage(m, lines) <= 100
  {
    PercentageUnwrapped(n, lines);
    PercentageUnwrapped(m, lines);
    var x, y := 100 * (n + 1), 100 * (m + 1);
    assert x <= y;
    DivMonotone(x, y, lines);
  }

  /** For a step within the file, none of the 64-bit and 32-bit narrowings changes the value. */
  lemma PercentageUnwrapped(n: int, lines: int)
    requires 0 <= n && n + 1 <= lines <= INT_MAX
    ensures StepPercentage(n, lines) == 100 * (n + 1) / lines
    ensures 0 <= StepPercentage(n, lines) <= 100
  {
    var x := 100 * (n + 1);
    assert x <= 100 * lines by {
      MulMonotone(n + 1, lines, 100);
    }
    DivMonotone(x, 100 * lines, lines);
    DivOfMultiple(100, lines);
    var q := x / lines;
    assert 0 <= q <= 100;
    Unwrapped(n + 1, x, lines, q);
  }

  /** The 64-bit product and the narrowing of a small quotient keep their values. */
  lemma Unwrapped(k: int, x: int, lines: int, q: int)
    requires 0 < k <= INT_MAX && x == 100 * k && 0 < lines && q == x / lines && 0 <= q <= 100
    ensures ToInt(JavaDiv(ToLong(100 * ToLong(k)), lines)) == q
  {
    assert IsLong(k);
    assert IsLong(x);
    assert JavaDiv(x, lines) == q;
    assert IsInt(q);
  }

  lemma DivOfMultiple(k: nat, d: int)
    requires d > 0
    ensures k * d / d == k
  {
    DivUnique(k * d, d, k, 0);
  }

  /** Euclidean division is the unique quotient with a remainder in `[0, d)`. */
  lemma DivUnique(a: int, d: int, q: int, r: int)
    requires d > 0 && a == q * d + r && 0 <= r < d
    ensures a / d == q
  {
    var q', r' := a / d, a % d;
    assert a == q' * d + r' && 0 <= r' < d;
    assert (q - q') * d == r' - r by {
      MulDistributes(q, q', d);
    }
    if q > q' {
      MulMonotone(1, q - q', d);
      assert false;
    } else if q < q' {
      MulMonotone(1, q' - q, d);
      MulDistributes(q', q, d);
      assert false;
    }
  }

  lemma MulDistributes(x: int, y: int, d: int)
    ensures (x - y) * d == x * d - y * d
  {
  }

  lemma DivMonotone(a: nat, b: nat, d: int)
    requires a <= b && d > 0
    ensures a / d <= b / d
  {
    var qa, ra := a / d, a % d;
    var qb, rb := b / d, b % d;
    assert a == qa * d + ra && 0 <= ra < d;
    assert b == qb * d + rb && 0 <= rb < d;
    if qa > qb {
      MulMonotone(qb + 1, qa, d);
      MulDistributes(qb + 1, 1, d);
      assert false;
    }
  }

  lemma MulMonotone(x: int, y: int, d: int)
    requires x <= y && d > 0
    ensures x * d <= y * d
  {
    MulDistributes(y, x, d);
    assert (y - x) * d >= 0;
  }

  /** The percentage is not clamped: a step past the last instruction reports more than 100. */
  lemma StepPercentageUnclamped()
    ensures StepPercentage(4, 2) == 250
  {
  }

  /**
   * Feeding messages one after another until one fails the build: the
   * final handler, or the first outcome that is not a processed message.
   */
  function ProcessAll(h: Handler, ms: seq<Message>, markers: Markers): Outcome
    decreases |ms|
  {
    if |ms| == 0 then Processed(h)
    else match ProcessMessage(h, ms[0], markers)
      case Processed(h1) => ProcessAll(h1, ms[1..], markers)
      case other => other
  }

  /** The console texts of the messages, in order. */
  function Streams(ms: seq<Message>): (r: seq<Option<string>>)
    ensures |r| == |ms| && forall k :: 0 <= k < |ms| ==> r[k] == ms[k].stream
  {
    seq(|ms|, k requires 0 <= k < |ms| => ms[k].stream)
  }

  lemma StreamsCons(ms: seq<Message>)
    requires |ms| > 0
    ensures Streams(ms) == [ms[0].stream] + Streams(ms[1..])
  {
  }

  /** Every message that does not fail the build is logged exactly once, in order. */
  lemma {:induction false} ProcessAllLogs(h: Handler, ms: seq<Message>, markers: Markers)
    ensures var r := ProcessAll(h, ms, markers);
            r.Processed? ==> r.handler.log == h.log + Streams(ms)
    decreases |ms|
  {
    if |ms| > 0 {
      var r0 := ProcessMessage(h, ms[0], markers);
      if r0.Processed? {
        ProcessAllLogs(r0.handler, ms[1..], markers);
        StreamsCons(ms);
        Seqs.AppendAssociates(h.log, [ms[0].stream], Streams(ms[1..]));
      }
    }
  }
}
