/** The download worker thread: its flags, its speed meter and the signals it
    has emitted, updated in place by its methods. Each method is proved to
    leave the worker and the output file exactly as the corresponding
    function of the transfer or queue specification says. */
module Worker {
  import opened Wrappers
  import opened OutputFile
  import opened ChunkPlan
  import opened ChunkRetry
  import opened SpeedMeter
  import opened Events
  import opened Transfer
  import opened QueueRun
  import Strategy
  import Text

  /** The loop of `run` finding the flag off: the stop line and the final
      line complete the session's signals. */
  lemma StoppedRun(queue: seq<string>, envs: seq<LinkEnv>, idx: nat, a0: bool, target: seq<Event>, events: seq<Event>, m: Meter)
    requires |envs| == |queue| && idx < |queue| && (!a0 || envs[idx].stopBeforeCheck)
    requires target == events + RunFrom(queue, envs, idx, a0).events
    ensures target == events + [Log(StoppedByUser)] + [Log(SessionFinished)]
    ensures !RunFrom(queue, envs, idx, a0).active
    ensures MeterFrom(queue, envs, idx, a0, m) == m
  {
  }

  class DownloaderWorker {
    /** The links of the session, in queue order. */
    var links: seq<string>
    /** Cleared by `stop()`; every loop of the worker looks at it. */
    var active: bool
    var isPaused: bool
    /** `_last_update_time` and `_last_downloaded`, absent until the first
        progress report. */
    var meter: Meter
    /** Every signal emitted so far, in order. */
    var events: seq<Event>

    constructor (links: seq<string>)
      ensures this.links == links && active && !isPaused && meter == NoBaseline && events == []
    {
      this.links := links;
      active := true;
      isPaused := false;
      meter := NoBaseline;
      events := [];
    }

    /** `stop()`: clears the flag and nothing else. */
    method Stop()
      modifies this
      ensures !active
      ensures links == old(links) && isPaused == old(isPaused) && meter == old(meter) && events == old(events)
    {
      active := false;
    }

    /** `toggle_pause()`: flips the pause flag and logs the new state. */
    method TogglePause()
      modifies this
      ensures isPaused == !old(isPaused)
      ensures events == old(events) + [Log(if isPaused then PausedLine else ResumedLine)]
      ensures links == old(links) && active == old(active) && meter == old(meter)
    {
      isPaused := !isPaused;
      events := events + [Log(if isPaused then PausedLine else ResumedLine)];
    }

    /** `update_speed_metrics(downloaded, now)`: reports the byte count, sets
        the baseline on first use, and reports a rate (then moves the
        baseline) only once more than 500 ms have passed. */
    method UpdateSpeedMetrics(downloaded: nat, now: int)
      modifies this
      ensures meter == Measure(old(meter), downloaded, now).0
      ensures events == old(events) + MeasureEvents(old(meter), downloaded, now)
      ensures links == old(links) && active == old(active) && isPaused == old(isPaused)
    {
      events := events + [FileProgress(downloaded)];
      if meter.NoBaseline? {
        meter := Baseline(now, downloaded);
      }
      var elapsed := now - meter.time;
      if elapsed > ThrottleMs {
        events := events + [Speed(Rate(downloaded - meter.downloaded, elapsed))];
        meter := Baseline(now, downloaded);
      }
    }

    /** `download_chunk`: up to three attempts at fetching `span`, each after
        a look at the flag; the first body is written at the span's offset
        and its length returned. `attempts[k].stopBefore` says that `stop()`
        is called before attempt `k`'s look at the flag. */
    method DownloadChunk(file: File, span: Span, attempts: seq<Attempt>) returns (r: Option<nat>)
      requires |attempts| == MaxAttempts
      modifies this, file
      ensures var run := RunAttempts(old(active), attempts, 0);
        r == ChunkResult(run) &&
        file.bytes == (if run.Written? then Overwrite(old(file.bytes), span.start, run.content) else old(file.bytes)) &&
        active == !run.Stopped?
      ensures links == old(links) && isPaused == old(isPaused) && meter == old(meter) && events == old(events)
    {
      var attempt := 0;
      while attempt < MaxAttempts
        invariant 0 <= attempt <= MaxAttempts
        invariant RunAttempts(old(active), attempts, 0) == RunAttempts(active, attempts, attempt)
        invariant attempt > 0 ==> active
        invariant file.bytes == old(file.bytes)
        invariant links == old(links) && isPaused == old(isPaused) && meter == old(meter) && events == old(events)
      {
        if attempts[attempt].stopBefore {
          Stop();
        }
        if !active {
          return None;
        }
        match attempts[attempt].fetch
        case Body(content) =>
          file.WriteAt(span.start, content);
          return Some(|content|);
        case Failed =>
          attempt := attempt + 1;
      }
      return None;
    }

    /** `chunked_download`: the file is opened empty and grown to
        `totalSize` zero bytes; the planned chunks are fetched and, as each
        completes, the flag is checked (`envs[i].stopAfter` says `stop()` was
        called just before) and a non-empty result is added to the running
        total and reported to the speed meter. */
    method ChunkedDownload(file: File, totalSize: nat, envs: seq<ChunkEnv>)
      requires |envs| == SpanCount(totalSize) && AttemptsShaped(envs)
      modifies this, file
      ensures var q := Chunked(old(active), old(meter), totalSize, envs);
        file.bytes == q.file && active == q.active && meter == q.meter && events == old(events) + q.events
      ensures links == old(links) && isPaused == old(isPaused)
    {
      file.Truncate(0);
      file.Truncate(totalSize);
      var spans := Plan(totalSize);
      var downloaded: nat := 0;
      ghost var emitted: seq<Event> := [];
      assert file.bytes == Zeros(totalSize);
      var i := 0;
      while i < |spans|
        invariant 0 <= i <= |spans| == |envs|
        invariant Chunked(old(active), old(meter), totalSize, envs) ==
                  ChunkLoop(Progress(active, file.bytes, meter, emitted, downloaded), spans[i..], envs[i..])
        invariant events == old(events) + emitted
        invariant links == old(links) && isPaused == old(isPaused)
      {
        ghost var before := Progress(active, file.bytes, meter, emitted, downloaded);
        assert spans[i..][0] == spans[i] && spans[i..][1..] == spans[i + 1..];
        assert envs[i..][0] == envs[i] && envs[i..][1..] == envs[i + 1..];
        downloaded, emitted := CompleteChunk(file, spans[i], envs[i], downloaded, old(events), emitted);
        if !active {
          return;
        }
        i := i + 1;
      }
    }

    /** One pass of the collecting loop of `chunked_download`: chunk `span`
        runs its attempts, then the flag is checked (`env.stopAfter` says
        `stop()` was called just before); a non-empty result is added to the
        running total and reported to the speed meter. */
    method CompleteChunk(file: File, span: Span, env: ChunkEnv, downloaded: nat,
                         ghost base: seq<Event>, ghost emitted: seq<Event>)
      returns (total: nat, ghost emitted': seq<Event>)
      requires |env.attempts| == MaxAttempts && events == base + emitted
      modifies this, file
      ensures Progress(active, file.bytes, meter, emitted', total) ==
              ChunkStep(Progress(old(active), old(file.bytes), old(meter), emitted, downloaded), span, env)
      ensures events == base + emitted'
      ensures links == old(links) && isPaused == old(isPaused)
    {
      total, emitted' := downloaded, emitted;
      var r := DownloadChunk(file, span, env.attempts);
      if env.stopAfter {
        Stop();
      }
      if !active {
        return;
      }
      if r.Some? && r.value != 0 {
        total := total + r.value;
        emitted' := emitted' + MeasureEvents(meter, total, env.now);
        UpdateSpeedMetrics(total, env.now);
      }
    }

    /** One buffer of the stream, taken with the flag on: it is appended to
        the file, counted, and reported. */
    method ConsumeBuffer(file: File, b: Buffer, downloaded: nat, ghost base: seq<Event>, ghost emitted: seq<Event>)
      returns (total: nat, ghost emitted': seq<Event>)
      requires active && events == base + emitted
      modifies this, file
      ensures Progress(active, file.bytes, meter, emitted', total) ==
              StreamStep(Progress(old(active), old(file.bytes), old(meter), emitted, downloaded), b)
      ensures events == base + emitted'
      ensures links == old(links) && isPaused == old(isPaused)
    {
      file.Append(b.data);
      total := downloaded + |b.data|;
      emitted' := emitted + MeasureEvents(meter, total, b.now);
      UpdateSpeedMetrics(total, b.now);
    }

    /** `single_thread_download`: a refused request raises before the file
        is opened; otherwise the file is opened empty and every buffer is
        appended (after a look at the flag) and reported; a stream error
        after the last buffer raises, unless the loop had stopped. */
    method SingleThreadDownload(file: File, env: StreamEnv) returns (outcome: TransferOutcome)
      modifies this, file
      ensures var (o, q) := SingleStream(Progress(old(active), old(file.bytes), old(meter), [], 0), env);
        outcome == o && file.bytes == q.file && active == q.active && meter == q.meter &&
        events == old(events) + q.events
      ensures links == old(links) && isPaused == old(isPaused)
    {
      match env
      case Refused(reason) =>
        return Raises(reason);
      case Streamed(buffers, failure) =>
        file.Truncate(0);
        var broke := StreamBuffers(file, buffers);
        if failure.Some? && !broke {
          return Raises(failure.value);
        }
        return Done;
    }

    /** The loop over the streamed buffers: each buffer is taken after a
        look at the flag (`stopBefore` says `stop()` was called just before);
        the loop breaks at the first look that finds the flag off. */
    method StreamBuffers(file: File, buffers: seq<Buffer>) returns (broke: bool)
      modifies this, file
      ensures var q := StreamLoop(Progress(old(active), old(file.bytes), old(meter), [], 0), buffers);
        file.bytes == q.file && active == q.active && meter == q.meter && events == old(events) + q.events
      ensures broke <==> buffers != [] && !active
      ensures links == old(links) && isPaused == old(isPaused)
    {
      ghost var p := Progress(active, file.bytes, meter, [], 0);
      var downloaded: nat := 0;
      ghost var emitted: seq<Event> := [];
      var i := 0;
      broke := false;
      while i < |buffers|
        invariant 0 <= i <= |buffers|
        invariant StreamLoop(p, buffers) ==
                  StreamLoop(Progress(active, file.bytes, meter, emitted, downloaded), buffers[i..])
        invariant i > 0 ==> active
        invariant events == old(events) + emitted
        invariant links == old(links) && isPaused == old(isPaused)
      {
        assert buffers[i..][0] == buffers[i] && buffers[i..][1..] == buffers[i + 1..];
        if buffers[i].stopBefore {
          Stop();
        }
        if !active {
          broke := true;
          return;
        }
        downloaded, emitted := ConsumeBuffer(file, buffers[i], downloaded, old(events), emitted);
        i := i + 1;
      }
    }

    /** `download_file`: above one chunk, a HEAD request asks for
        `Accept-Ranges`; the chunked download runs when the answer contains
        `bytes`, the single stream otherwise. */
    method DownloadFile(file: File, totalSize: int, head: HeadResult,
                        chunkEnvs: seq<ChunkEnv>, stream: StreamEnv) returns (outcome: TransferOutcome)
      requires totalSize > ChunkSize ==> |chunkEnvs| == SpanCount(totalSize) && AttemptsShaped(chunkEnvs)
      modifies this, file
      ensures var (o, q) := Transfer.DownloadFile(Progress(old(active), old(file.bytes), old(meter), [], 0),
                                                  totalSize, head, chunkEnvs, stream);
        outcome == o && file.bytes == q.file && active == q.active && meter == q.meter &&
        events == old(events) + q.events
      ensures links == old(links) && isPaused == old(isPaused)
    {
      if totalSize > ChunkSize {
        match head
        case HeadFailed(reason) =>
          return Raises(reason);
        case HeadOk(acceptRanges) =>
          if Text.Contains(Strategy.AcceptRangesValue(acceptRanges), "bytes") {
            ChunkedDownload(file, totalSize, chunkEnvs);
            return Done;
          }
      }
      outcome := SingleThreadDownload(file, stream);
    }

    /** One pass of `run`'s loop body once the flag check passed: the link
        is announced, processed (its outcome given by `env`), reported as
        completed (if the flag is still on) or failed, and counted in the
        overall progress if the flag is still on in the `finally` clause.
        The transfer leaves the speed meter as `env` says. */
    method HandleLink(idx: nat, total: nat, link: string, env: LinkEnv)
      requires active
      modifies this
      ensures events == old(events) + LinkEvents(idx, total, link, env)
      ensures active == ActiveAfter(env)
      ensures meter == MeterOf(env, old(meter))
      ensures links == old(links) && isPaused == old(isPaused)
    {
      events := events + [LinkStarted(link), Log(ProcessingLink(idx + 1, total))];
      ProcessLink(idx, link, env);
      if env.stopBeforeFinally {
        Stop();
      }
      if active {
        events := events + [OverallProgress(idx + 1, total)];
      }
    }

    /** The `try` and `except` clauses of `run`'s loop body for a taken link:
        processing ends as `env` says; a link that returned is reported as
        completed if the flag is still on, one that raised as failed. */
    method ProcessLink(idx: nat, link: string, env: LinkEnv)
      requires active
      modifies this
      ensures events == old(events) + Terminal(idx, link, env)
      ensures active == !env.stopDuring
      ensures meter == MeterOf(env, old(meter))
      ensures links == old(links) && isPaused == old(isPaused)
    {
      match env.outcome {
        case Returned(name, size, emitted, meterAfter) =>
          events := events + ([FileInfo(name, size), Log(StartingFile(name, size))] + emitted);
          if meterAfter.Some? {
            meter := meterAfter.value;
          }
          if env.stopDuring {
            Stop();
          }
          if active {
            events := events + [Log(FinishedFile(name)), LinkCompleted(link)];
          }
        case Raised(reason, emitted, meterAfter) =>
          events := events + emitted;
          if meterAfter.Some? {
            meter := meterAfter.value;
          }
          if env.stopDuring {
            Stop();
          }
          events := events + [Log(LinkError(idx + 1, reason)), LinkFailed(link)];
      }
    }

    /** `run`: announces the session, then takes the links in order while
        the flag is on; each taken link is announced, processed (its outcome
        given by `envs`), reported as completed or failed, and counted in the
        overall progress if the flag is still on; the session ends with a
        final line, preceded by the stop line if the flag was found off. The
        speed meter is carried from one link to the next. */
    method Run(envs: seq<LinkEnv>)
      requires |envs| == |links|
      modifies this
      ensures var r := RunFrom(old(links), envs, 0, old(active));
        events == old(events) + [Log(SessionStarting)] + r.events && active == r.active
      ensures meter == MeterFrom(old(links), envs, 0, old(active), old(meter))
      ensures links == old(links) && isPaused == old(isPaused)
    {
      events := events + [Log(SessionStarting)];
      ghost var r := RunFrom(links, envs, 0, active);
      ghost var finalMeter := MeterFrom(links, envs, 0, active, meter);
      ghost var target, finalActive := events + r.events, r.active;
      var queue := links;
      var total := |queue|;
      var idx := 0;
      while idx < |queue|
        invariant 0 <= idx <= |queue| == total && links == old(links) && isPaused == old(isPaused)
        invariant r == RunFrom(queue, envs, idx, active)
        invariant finalMeter == MeterFrom(queue, envs, idx, active, meter)
        invariant target == events + r.events && finalActive == r.active
        decreases |queue| - idx
      {
        var env := envs[idx];
        ghost var a0 := active;
        if env.stopBeforeCheck {
          Stop();
        }
        if !active {
          StoppedRun(queue, envs, idx, a0, target, events, meter);
          events := events + [Log(StoppedByUser)];
          break;
        }
        var link := queue[idx];
        ghost var before := events;
        ghost var step := LinkEvents(idx, total, link, env);
        ghost var rest := RunFrom(queue, envs, idx + 1, ActiveAfter(env));
        RunFromTaking(queue, envs, idx, step, rest);
        MeterFromTaking(queue, envs, idx, meter);
        HandleLink(idx, total, link, env);
        AppendAssoc(before, step, rest.events);
        r := rest;
        idx := idx + 1;
      }
      events := events + [Log(SessionFinished)];
    }
  }
}
