/** What one file transfer does, as functions of the worker's state and of
    what the network and the controlling thread do: the chunked download
    (`chunked_download` with `download_chunk`), the single stream
    (`single_thread_download`) and the choice between them (`download_file`).
    The worker's methods are proved to do exactly this. */
module Transfer {
  import opened Wrappers
  import opened OutputFile
  import opened ChunkPlan
  import opened ChunkRetry
  import opened SpeedMeter
  import opened Events
  import Strategy
  import Text

  /** The worker's state as far as a transfer sees and changes it: the
      `active` flag, the output file, the speed meter, the signals emitted
      so far by this transfer, and the running byte count. */
  datatype Progress = Progress(active: bool, file: seq<byte>, meter: Meter, events: seq<Event>, downloaded: nat)

  /** What happens around one chunk: its attempts, whether `stop()` is called
      before the collecting loop looks at the flag, and the clock then. */
  datatype ChunkEnv = ChunkEnv(attempts: seq<Attempt>, stopAfter: bool, now: int)

  predicate AttemptsShaped(envs: seq<ChunkEnv>) {
    forall i :: 0 <= i < |envs| ==> |envs[i].attempts| == MaxAttempts
  }

  /** One chunk completing: it runs its attempts and writes its body at its
      offset; then the collector looks at the flag and switches off if it is
      off; otherwise a non-empty result is added to the byte count and
      reported to the speed meter. */
  function ChunkStep(p: Progress, span: Span, env: ChunkEnv): Progress
    requires |env.attempts| == MaxAttempts
  {
    var run := RunAttempts(p.active, env.attempts, 0);
    var file := if run.Written? then Overwrite(p.file, span.start, run.content) else p.file;
    if run.Stopped? || env.stopAfter then p.(active := false, file := file)
    else
      var size := ChunkResult(run);
      if size.Some? && size.value != 0 then
        var d := p.downloaded + size.value;
        Progress(p.active, file, Measure(p.meter, d, env.now).0, p.events + MeasureEvents(p.meter, d, env.now), d)
      else p.(file := file)
  }

  /** What one completed chunk may change: the flag is only switched off,
      the file never shrinks, the running total never goes down, and only
      byte counts and rates are reported; a chunk that adds nothing to the
      total reports nothing and leaves the meter alone, and one that adds
      bytes reports the new total first. */
  lemma ChunkStepEffects(p: Progress, span: Span, env: ChunkEnv)
    requires |env.attempts| == MaxAttempts
    ensures var r := ChunkStep(p, span, env);
      (r.active ==> p.active) && |p.file| <= |r.file| && p.downloaded <= r.downloaded &&
      p.events <= r.events && Reports(r.events[|p.events|..]) &&
      (r.downloaded == p.downloaded ==> r.events == p.events && r.meter == p.meter) &&
      (r.downloaded > p.downloaded ==>
         |r.events| > |p.events| && r.events[|p.events|] == FileProgress(r.downloaded))
  {
    var r := ChunkStep(p, span, env);
    if r.downloaded > p.downloaded {
      assert r.events[|p.events|..] == MeasureEvents(p.meter, r.downloaded, env.now);
    }
  }

  /** The chunks of `spans` completing one after another, until one of them
      finds the flag off. */
  function ChunkLoop(p: Progress, spans: seq<Span>, envs: seq<ChunkEnv>): (r: Progress)
    requires |spans| == |envs| && AttemptsShaped(envs)
    ensures r.active ==> p.active
    ensures |p.file| <= |r.file|
    ensures p.downloaded <= r.downloaded
    ensures p.events <= r.events && Reports(r.events[|p.events|..])
    decreases |spans|
  {
    if spans == [] then p
    else
      var q := ChunkStep(p, spans[0], envs[0]);
      ChunkStepEffects(p, spans[0], envs[0]);
      if q.active then
        var r := ChunkLoop(q, spans[1..], envs[1..]);
        ReportsAppend(p.events, q.events, r.events);
        r
      else q
  }

  /** Reports appended after reports are reports. */
  lemma ReportsAppend(a: seq<Event>, b: seq<Event>, c: seq<Event>)
    requires a <= b && b <= c && Reports(b[|a|..]) && Reports(c[|b|..])
    ensures a <= c && Reports(c[|a|..])
  {
    forall k | 0 <= k < |c[|a|..]|
      ensures c[|a|..][k].FileProgress? || c[|a|..][k].Speed?
    {
      if |a| + k < |b| {
        assert c[|a|..][k] == b[|a|..][k];
      } else {
        assert c[|a|..][k] == c[|b|..][|a| + k - |b|];
      }
    }
  }

  /** A whole chunked download of `totalSize` bytes: the file is opened
      empty, truncated up to `totalSize` zero bytes, and the planned spans
      are fetched. */
  function Chunked(active: bool, meter: Meter, totalSize: nat, envs: seq<ChunkEnv>): (r: Progress)
    requires |envs| == SpanCount(totalSize) && AttemptsShaped(envs)
    ensures r.active ==> active
    ensures |r.file| >= totalSize
    ensures Reports(r.events)
  {
    ChunkLoop(Progress(active, Zeros(totalSize), meter, [], 0), Plan(totalSize), envs)
  }

  // ---- properties of the chunked download ----

  /** No `stop()` anywhere in the chunked download. */
  predicate NoStops(envs: seq<ChunkEnv>)
    requires AttemptsShaped(envs)
  {
    forall i :: 0 <= i < |envs| ==>
      !envs[i].stopAfter && forall k :: 0 <= k < MaxAttempts ==> !envs[i].attempts[k].stopBefore
  }

  /** How chunk `env` ends when it runs with the flag on. */
  function RunOf(env: ChunkEnv): ChunkRun
    requires |env.attempts| == MaxAttempts
  {
    RunAttempts(true, env.attempts, 0)
  }

  /** Bytes added to the running total by the chunks of `envs`. */
  function SuccessBytes(envs: seq<ChunkEnv>): nat
    requires AttemptsShaped(envs)
  {
    if envs == [] then 0
    else (if RunOf(envs[0]).Written? then |RunOf(envs[0]).content| else 0) + SuccessBytes(envs[1..])
  }

  lemma NoStopNeverStops(env: ChunkEnv)
    requires |env.attempts| == MaxAttempts
    requires forall k :: 0 <= k < MaxAttempts ==> !env.attempts[k].stopBefore
    ensures !RunOf(env).Stopped?
  {
    RunAttemptsCases(true, env.attempts, 0);
  }

  /** Without a stop, every chunk is collected, the flag stays on, and the
      running total is the sum of the body lengths of the chunks that
      succeeded; failed chunks add nothing. */
  lemma {:induction false} ChunkLoopCounts(p: Progress, spans: seq<Span>, envs: seq<ChunkEnv>)
    requires |spans| == |envs| && AttemptsShaped(envs) && NoStops(envs) && p.active
    ensures ChunkLoop(p, spans, envs).active
    ensures ChunkLoop(p, spans, envs).downloaded == p.downloaded + SuccessBytes(envs)
    decreases |spans|
  {
    if spans != [] {
      NoStopNeverStops(envs[0]);
      assert NoStops(envs[1..]) by {
        forall i | 0 <= i < |envs[1..]| ensures !envs[1..][i].stopAfter && forall k :: 0 <= k < MaxAttempts ==> !envs[1..][i].attempts[k].stopBefore {
          assert envs[1..][i] == envs[i + 1];
        }
      }
      assert ChunkStep(p, spans[0], envs[0]).active;
      ChunkLoopCounts(ChunkStep(p, spans[0], envs[0]), spans[1..], envs[1..]);
    }
  }

  /** Every body fits in its span (the server honoured the Range header). */
  predicate BodiesFit(totalSize: nat, envs: seq<ChunkEnv>)
    requires AttemptsShaped(envs) && |envs| == SpanCount(totalSize)
  {
    forall i :: 0 <= i < |envs| && RunOf(envs[i]).Written? ==>
      Plan(totalSize)[i].start + |RunOf(envs[i]).content| <= Plan(totalSize)[i].end
  }

  /** The byte the finished file should hold at `b`: the byte of the body of
      the chunk whose span holds `b`, or 0 where that chunk wrote nothing. */
  function ExpectedByte(totalSize: nat, envs: seq<ChunkEnv>, b: nat): byte
    requires AttemptsShaped(envs) && |envs| == SpanCount(totalSize) && b < totalSize
  {
    ExactCover(totalSize, b);
    var k := b / ChunkSize;
    var run := RunOf(envs[k]);
    var off := b - k * ChunkSize;
    if run.Written? && off < |run.content| then run.content[off] else 0
  }

  /** The file holds the right bytes in the spans before `k` and zeros elsewhere. */
  ghost predicate FilledBefore(totalSize: nat, envs: seq<ChunkEnv>, k: nat, file: seq<byte>)
    requires AttemptsShaped(envs) && |envs| == SpanCount(totalSize)
  {
    |file| == totalSize &&
    forall b :: 0 <= b < totalSize ==>
      file[b] == if b / ChunkSize < k then ExpectedByte(totalSize, envs, b) else 0
  }

  /** Writing chunk `k`'s body into a file filled before `k` fills it before `k + 1`. */
  lemma FillOneChunk(totalSize: nat, envs: seq<ChunkEnv>, k: nat, file: seq<byte>)
    requires AttemptsShaped(envs) && |envs| == SpanCount(totalSize) && k < |envs|
    requires BodiesFit(totalSize, envs) && FilledBefore(totalSize, envs, k, file)
    ensures var run := RunOf(envs[k]);
      FilledBefore(totalSize, envs, k + 1,
        if run.Written? then Overwrite(file, Plan(totalSize)[k].start, run.content) else file)
  {
    var span := Plan(totalSize)[k];
    var run := RunOf(envs[k]);
    PlanSpansWellFormed(totalSize, k);
    var file' := if run.Written? then Overwrite(file, span.start, run.content) else file;
    if run.Written? {
      OverwriteAt(file, span.start, run.content);
    }
    forall b | 0 <= b < totalSize
      ensures file'[b] == if b / ChunkSize < k + 1 then ExpectedByte(totalSize, envs, b) else 0
    {
      ExactCover(totalSize, b);
      if span.start <= b < span.end {
        assert b / ChunkSize == k;
      } else {
        assert b / ChunkSize != k;
      }
    }
  }

  /** Chunks `k..` of the plan, run against a file filled before `k`, leave
      it filled everywhere. */
  lemma {:induction false} ChunkLoopFills(totalSize: nat, envs: seq<ChunkEnv>, k: nat, p: Progress)
    requires AttemptsShaped(envs) && |envs| == SpanCount(totalSize) && k <= |envs|
    requires NoStops(envs) && BodiesFit(totalSize, envs) && p.active
    requires FilledBefore(totalSize, envs, k, p.file)
    ensures FilledBefore(totalSize, envs, |envs|, ChunkLoop(p, Plan(totalSize)[k..], envs[k..]).file)
    decreases |envs| - k
  {
    if k < |envs| {
      var spans := Plan(totalSize)[k..];
      assert spans[0] == Plan(totalSize)[k] && spans[1..] == Plan(totalSize)[k + 1..];
      assert envs[k..][0] == envs[k] && envs[k..][1..] == envs[k + 1..];
      NoStopNeverStops(envs[k]);
      FillOneChunk(totalSize, envs, k, p.file);
      var q := ChunkStep(p, spans[0], envs[k]);
      assert q.active;
      ChunkLoopFills(totalSize, envs, k + 1, q);
    }
  }

  lemma SpansCoverAll(totalSize: nat)
    ensures forall b :: 0 <= b < totalSize ==> b / ChunkSize < SpanCount(totalSize)
  {
    forall b | 0 <= b < totalSize ensures b / ChunkSize < SpanCount(totalSize) {
      ExactCover(totalSize, b);
    }
  }

  /** The chunked download, when nobody stops it and every server body fits
      its span: the file keeps exactly `totalSize` bytes; a byte holds the
      body byte of the chunk that covers it, and 0 where that chunk failed
      three times or sent a short body, while the download still returns
      normally. The running total is the number of bytes received. */
  lemma ChunkedDownloadResult(active: bool, meter: Meter, totalSize: nat, envs: seq<ChunkEnv>)
    requires AttemptsShaped(envs) && |envs| == SpanCount(totalSize)
    requires active && NoStops(envs) && BodiesFit(totalSize, envs)
    ensures Chunked(active, meter, totalSize, envs).active
    ensures Chunked(active, meter, totalSize, envs).downloaded == SuccessBytes(envs)
    ensures |Chunked(active, meter, totalSize, envs).file| == totalSize
    ensures forall b :: 0 <= b < totalSize ==>
      Chunked(active, meter, totalSize, envs).file[b] == ExpectedByte(totalSize, envs, b)
  {
    var p := Progress(active, Zeros(totalSize), meter, [], 0);
    assert Plan(totalSize)[0..] == Plan(totalSize) && envs[0..] == envs;
    assert FilledBefore(totalSize, envs, 0, p.file);
    ChunkLoopFills(totalSize, envs, 0, p);
    SpansCoverAll(totalSize);
    ChunkLoopCounts(p, Plan(totalSize), envs);
  }

  /** One byte of `ChunkedDownloadResult`, without its quantifier. */
  lemma ChunkedByte(active: bool, meter: Meter, totalSize: nat, envs: seq<ChunkEnv>, b: nat)
    requires AttemptsShaped(envs) && |envs| == SpanCount(totalSize)
    requires active && NoStops(envs) && BodiesFit(totalSize, envs)
    requires b < totalSize
    ensures Chunked(active, meter, totalSize, envs).downloaded == SuccessBytes(envs)
    ensures |Chunked(active, meter, totalSize, envs).file| == totalSize
    ensures Chunked(active, meter, totalSize, envs).file[b] == ExpectedByte(totalSize, envs, b)
  {
    ChunkedDownloadResult(active, meter, totalSize, envs);
  }

  /** When every chunk gets a body of exactly its span's length, the file
      is the bodies laid out in span order: byte `j` of span `k` is byte `j`
      of chunk `k`'s body; and the running total reaches `totalSize`. */
  lemma ChunkedDownloadComplete(active: bool, meter: Meter, totalSize: nat, envs: seq<ChunkEnv>, k: nat, j: nat)
    requires AttemptsShaped(envs) && |envs| == SpanCount(totalSize)
    requires active && NoStops(envs)
    requires ExactBodies(totalSize, envs)
    requires k < |envs| && j < Plan(totalSize)[k].end - Plan(totalSize)[k].start
    ensures |Chunked(active, meter, totalSize, envs).file| == totalSize
    ensures Plan(totalSize)[k].start + j < totalSize
    ensures Chunked(active, meter, totalSize, envs).file[Plan(totalSize)[k].start + j] == RunOf(envs[k]).content[j]
    ensures Chunked(active, meter, totalSize, envs).downloaded == totalSize
  {
    ExactByteAt(totalSize, envs, k, j);
    ExactBodiesFit(totalSize, envs);
    ChunkedByte(active, meter, totalSize, envs, Plan(totalSize)[k].start + j);
    ExactBodiesTotal(totalSize, envs);
  }

  /** With exact bodies, the expected byte at offset `j` of span `k` is byte
      `j` of chunk `k`'s body. */
  lemma ExactByteAt(totalSize: nat, envs: seq<ChunkEnv>, k: nat, j: nat)
    requires AttemptsShaped(envs) && |envs| == SpanCount(totalSize)
    requires ExactBodies(totalSize, envs)
    requires k < |envs| && j < Plan(totalSize)[k].end - Plan(totalSize)[k].start
    ensures Plan(totalSize)[k].start + j < totalSize
    ensures j < |RunOf(envs[k]).content|
    ensures ExpectedByte(totalSize, envs, Plan(totalSize)[k].start + j) == RunOf(envs[k]).content[j]
  {
    OffsetInSpan(totalSize, k, j);
    ExpectedByteOfExactBody(totalSize, envs, Plan(totalSize)[k].start + j);
  }

  /** Every chunk got a body of exactly its span's length. */
  predicate ExactBodies(totalSize: nat, envs: seq<ChunkEnv>)
    requires AttemptsShaped(envs) && |envs| == SpanCount(totalSize)
  {
    forall i :: 0 <= i < |envs| ==> (RunOf(envs[i]).Written? &&
      |RunOf(envs[i]).content| == Plan(totalSize)[i].end - Plan(totalSize)[i].start)
  }

  lemma ExactBodiesFit(totalSize: nat, envs: seq<ChunkEnv>)
    requires AttemptsShaped(envs) && |envs| == SpanCount(totalSize)
    requires ExactBodies(totalSize, envs)
    ensures BodiesFit(totalSize, envs)
  {
    forall i | 0 <= i < |envs| && RunOf(envs[i]).Written?
      ensures Plan(totalSize)[i].start + |RunOf(envs[i]).content| <= Plan(totalSize)[i].end
    {
      PlanSpansWellFormed(totalSize, i);
    }
  }

  lemma ExpectedByteOfExactBody(totalSize: nat, envs: seq<ChunkEnv>, b: nat)
    requires AttemptsShaped(envs) && |envs| == SpanCount(totalSize)
    requires ExactBodies(totalSize, envs) && b < totalSize
    ensures b / ChunkSize < |envs| && Plan(totalSize)[b / ChunkSize].Holds(b)
    ensures b - Plan(totalSize)[b / ChunkSize].start < |RunOf(envs[b / ChunkSize]).content|
    ensures ExpectedByte(totalSize, envs, b) ==
      RunOf(envs[b / ChunkSize]).content[b - Plan(totalSize)[b / ChunkSize].start]
  {
    var k := b / ChunkSize;
    ExactCover(totalSize, b);
    PlanSpansWellFormed(totalSize, k);
  }

  lemma ExactBodiesTotal(totalSize: nat, envs: seq<ChunkEnv>)
    requires AttemptsShaped(envs) && |envs| == SpanCount(totalSize)
    requires ExactBodies(totalSize, envs)
    ensures SuccessBytes(envs) == totalSize
  {
    PlanLengthsSumToSize(totalSize);
    SuccessBytesOfExactBodies(Plan(totalSize), envs);
  }

  lemma {:induction false} SuccessBytesOfExactBodies(spans: seq<Span>, envs: seq<ChunkEnv>)
    requires |spans| == |envs| && AttemptsShaped(envs)
    requires forall i :: 0 <= i < |spans| ==> spans[i].start <= spans[i].end
    requires forall i :: 0 <= i < |envs| ==> (RunOf(envs[i]).Written? &&
      |RunOf(envs[i]).content| == spans[i].end - spans[i].start)
    ensures SuccessBytes(envs) == TotalLength(spans)
  {
    if spans != [] {
      SuccessBytesOfExactBodies(spans[1..], envs[1..]);
    }
  }

  /** A chunk that saw the flag off, or a stop before collection, ends the
      download: its body (if any) is in the file, but it is not counted and
      no later chunk is fetched. */
  lemma StopEndsChunkedDownload(p: Progress, spans: seq<Span>, envs: seq<ChunkEnv>)
    requires |spans| == |envs| > 0 && AttemptsShaped(envs)
    requires RunAttempts(p.active, envs[0].attempts, 0).Stopped? || envs[0].stopAfter
    ensures var run := RunAttempts(p.active, envs[0].attempts, 0);
      ChunkLoop(p, spans, envs) ==
        Progress(false, if run.Written? then Overwrite(p.file, spans[0].start, run.content) else p.file,
                 p.meter, p.events, p.downloaded)
  {
  }

  // ---- the single stream ----

  /** One buffer of the streamed body: whether `stop()` was called before
      the loop looked at the flag for it, its bytes, and the clock then. */
  datatype Buffer = Buffer(stopBefore: bool, data: seq<byte>, now: int)

  /** What the streamed GET does: it fails before the body (connection
      error, error status, or the output file cannot be opened), or it
      yields buffers and then either ends or breaks with an error. */
  datatype StreamEnv = Refused(reason: string) | Streamed(buffers: seq<Buffer>, failure: Option<string>)

  /** The loop over the buffers: stop at the first buffer seen with the flag
      off; otherwise append the buffer, add its length and report progress.
      The flag in the result tells whether every buffer was consumed. */
  function StreamLoop(p: Progress, buffers: seq<Buffer>): (r: Progress)
    ensures r.active ==> p.active
    ensures p.file <= r.file && r.downloaded - p.downloaded == |r.file| - |p.file|
    ensures p.events <= r.events && Reports(r.events[|p.events|..])
    decreases |buffers|
  {
    if buffers == [] then p
    else if !p.active || buffers[0].stopBefore then p.(active := false)
    else
      var q := StreamStep(p, buffers[0]);
      var r := StreamLoop(q, buffers[1..]);
      ReportsAppend(p.events, q.events, r.events);
      r
  }

  /** One consumed buffer: its bytes are appended and counted, and progress
      is reported. */
  function StreamStep(p: Progress, b: Buffer): (r: Progress)
    ensures r.active
    ensures p.file <= r.file && r.downloaded - p.downloaded == |r.file| - |p.file|
    ensures p.events <= r.events && Reports(r.events[|p.events|..])
    ensures |r.events| > |p.events| && r.events[|p.events|] == FileProgress(r.downloaded)
  {
    var d := p.downloaded + |b.data|;
    Progress(true, p.file + b.data, Measure(p.meter, d, b.now).0, p.events + MeasureEvents(p.meter, d, b.now), d)
  }

  /** The bytes of a stream of buffers, in order. */
  function Concat(buffers: seq<Buffer>): seq<byte> {
    if buffers == [] then [] else buffers[0].data + Concat(buffers[1..])
  }

  /** Whatever the stops, the streamed file is the old file followed by a
      prefix of the buffers, and the running total grows by exactly the bytes
      appended. */
  lemma {:induction false} StreamAppendsPrefix(p: Progress, buffers: seq<Buffer>)
    ensures exists n :: (0 <= n <= |buffers| &&
      StreamLoop(p, buffers).file == p.file + Concat(buffers[..n]) &&
      StreamLoop(p, buffers).downloaded == p.downloaded + |Concat(buffers[..n])|)
    decreases |buffers|
  {
    if buffers == [] {
      assert buffers[..0] == [];
    } else if !p.active || buffers[0].stopBefore {
      assert buffers[..0] == [];
    } else {
      var q := StreamStep(p, buffers[0]);
      StreamAppendsPrefix(q, buffers[1..]);
      var n :| 0 <= n <= |buffers[1..]| &&
        StreamLoop(q, buffers[1..]).file == q.file + Concat(buffers[1..][..n]) &&
        StreamLoop(q, buffers[1..]).downloaded == q.downloaded + |Concat(buffers[1..][..n])|;
      PrefixStep(p, buffers, n);
    }
  }

  /** One consumed buffer puts itself in front of the prefix the rest of
      the loop appends. */
  lemma PrefixStep(p: Progress, buffers: seq<Buffer>, n: nat)
    requires buffers != [] && p.active && !buffers[0].stopBefore && n < |buffers|
    requires var q := StreamStep(p, buffers[0]);
      StreamLoop(q, buffers[1..]).file == q.file + Concat(buffers[1..][..n])
    ensures StreamLoop(p, buffers).file == p.file + Concat(buffers[..n + 1])
    ensures StreamLoop(p, buffers).downloaded == p.downloaded + |Concat(buffers[..n + 1])|
  {
    var q := StreamStep(p, buffers[0]);
    assert StreamLoop(p, buffers) == StreamLoop(q, buffers[1..]);
    assert buffers[..n + 1][0] == buffers[0] && buffers[..n + 1][1..] == buffers[1..][..n];
    var rest := Concat(buffers[1..][..n]);
    assert Concat(buffers[..n + 1]) == buffers[0].data + rest;
    assert q.file == p.file + buffers[0].data;
    assert q.file + rest == p.file + (buffers[0].data + rest);
  }

  /** Without a stop the whole stream is appended, the running total grows
      by its length, and the flag stays on. */
  lemma {:induction false} StreamAppendsAll(p: Progress, buffers: seq<Buffer>)
    requires p.active && forall i :: 0 <= i < |buffers| ==> !buffers[i].stopBefore
    ensures StreamLoop(p, buffers).active
    ensures StreamLoop(p, buffers).file == p.file + Concat(buffers)
    ensures StreamLoop(p, buffers).downloaded == p.downloaded + |Concat(buffers)|
    decreases |buffers|
  {
    if buffers != [] {
      var q := StreamStep(p, buffers[0]);
      assert StreamLoop(p, buffers) == StreamLoop(q, buffers[1..]);
      assert Concat(buffers) == buffers[0].data + Concat(buffers[1..]);
      StreamAppendsAll(q, buffers[1..]);
    }
  }

  /** How a transfer ends: it returns, or it raises with a reason. */
  datatype TransferOutcome = Done | Raises(reason: string)

  /** `single_thread_download`: a refused request raises before the file is
      touched; otherwise the file is opened empty and the buffers are
      streamed into it; a stream error after the last buffer raises, unless
      the loop had already stopped. */
  function SingleStream(p: Progress, env: StreamEnv): (r: (TransferOutcome, Progress))
    ensures r.1.active ==> p.active
    ensures env.Streamed? ==> r.1.downloaded == |r.1.file|
    ensures env.Refused? ==> r.0.Raises? && r.1 == p
    ensures p.events <= r.1.events && Reports(r.1.events[|p.events|..])
  {
    match env
    case Refused(reason) => (Raises(reason), p)
    case Streamed(buffers, failure) =>
      var q := StreamLoop(p.(file := [], downloaded := 0), buffers);
      if failure.Some? && (buffers == [] || q.active) then (Raises(failure.value), q) else (Done, q)
  }

  /** What the second HEAD request of `download_file` yields: a failure, or
      the `Accept-Ranges` header if the server sent one. */
  datatype HeadResult = HeadFailed(reason: string) | HeadOk(acceptRanges: Option<string>)

  /** `download_file`: above one chunk, a HEAD request asks for
      `Accept-Ranges` (its failure raises); the chunked download runs when the
      answer contains `bytes`, the single stream otherwise. */
  function DownloadFile(p: Progress, totalSize: int, head: HeadResult,
                        chunkEnvs: seq<ChunkEnv>, stream: StreamEnv): (r: (TransferOutcome, Progress))
    requires totalSize > ChunkSize ==> |chunkEnvs| == SpanCount(totalSize) && AttemptsShaped(chunkEnvs)
    ensures r.1.active ==> p.active
    ensures p.events <= r.1.events && Reports(r.1.events[|p.events|..])
    ensures r.0.Raises? ==> !Strategy.UseChunked(totalSize, if head.HeadOk? then head.acceptRanges else None)
  {
    if totalSize > ChunkSize then
      match head
      case HeadFailed(reason) => (Raises(reason), p)
      case HeadOk(acceptRanges) =>
        if Text.Contains(Strategy.AcceptRangesValue(acceptRanges), "bytes") then
          var q := Chunked(p.active, p.meter, totalSize, chunkEnvs);
          (Done, q.(events := p.events + q.events))
        else SingleStream(p, stream)
    else SingleStream(p, stream)
  }

  /** The chunked path runs exactly when the strategy predicate holds of the
      size and the `Accept-Ranges` answer; a failed HEAD raises and changes
      nothing; with `open` and `truncate` assumed to succeed, the chunked
      path never raises. */
  lemma DownloadFileStrategy(p: Progress, totalSize: int, head: HeadResult,
                             chunkEnvs: seq<ChunkEnv>, stream: StreamEnv)
    requires totalSize > ChunkSize ==> |chunkEnvs| == SpanCount(totalSize) && AttemptsShaped(chunkEnvs)
    ensures head.HeadOk? && Strategy.UseChunked(totalSize, head.acceptRanges) ==>
      var q := Chunked(p.active, p.meter, totalSize, chunkEnvs);
      DownloadFile(p, totalSize, head, chunkEnvs, stream) == (Done, q.(events := p.events + q.events))
    ensures head.HeadOk? && !Strategy.UseChunked(totalSize, head.acceptRanges) ==>
      DownloadFile(p, totalSize, head, chunkEnvs, stream) == SingleStream(p, stream)
    ensures totalSize <= 4 * 1024 * 1024 ==>
      DownloadFile(p, totalSize, head, chunkEnvs, stream) == SingleStream(p, stream)
    ensures totalSize > 4 * 1024 * 1024 && head.HeadFailed? ==>
      DownloadFile(p, totalSize, head, chunkEnvs, stream) == (Raises(head.reason), p)
  {
  }

  /** Without a stop, a stream that is not refused fills the file with
      exactly the streamed bytes and the running total is the file's length;
      it raises exactly when the stream breaks after its last buffer, and then
      leaves the bytes received so far in the file. */
  lemma SingleStreamWritesAll(p: Progress, buffers: seq<Buffer>, failure: Option<string>)
    requires p.active && forall i :: 0 <= i < |buffers| ==> !buffers[i].stopBefore
    ensures SingleStream(p, Streamed(buffers, failure)).0 == (if failure.Some? then Raises(failure.value) else Done)
    ensures SingleStream(p, Streamed(buffers, failure)).1.file == Concat(buffers)
    ensures SingleStream(p, Streamed(buffers, failure)).1.downloaded == |Concat(buffers)|
  {
    var q := p.(file := [], downloaded := 0);
    StreamAppendsAll(q, buffers);
    assert q.file + Concat(buffers) == Concat(buffers);
  }

  /** A stream the flag cuts short never raises, even if it would have
      broken later. */
  lemma StoppedStreamDoesNotRaise(p: Progress, buffers: seq<Buffer>, failure: Option<string>)
    requires buffers != [] && (!p.active || buffers[0].stopBefore)
    ensures SingleStream(p, Streamed(buffers, failure)).0 == Done
    ensures !SingleStream(p, Streamed(buffers, failure)).1.active
    ensures SingleStream(p, Streamed(buffers, failure)).1.file == []
  {
  }
}
