# FitGirl repack downloader: the download worker and the queue

This project models the core of `FitgirlRepackDownloader.py`, a desktop
downloader with a queue of links.

The download worker thread (`DownloaderWorker`) takes the queued links one
after another. For each link it:

- announces the link;
- resolves the link to a file name and a download URL;
- downloads the file;
- reports the link as completed or failed;
- counts it in the overall progress.

A download goes one of two ways:

- **Chunked.** The file is larger than 4 MiB and the server accepts byte
  ranges. The file is pre-sized with `truncate` and 4 MiB spans are fetched
  with an HTTP `Range` header. Each span gets up to three attempts and is
  written at its offset.
- **Single stream.** Otherwise the body is streamed front to back.

The worker also:

- throttles its transfer-rate reports to one per half second;
- can be stopped;
- can be paused, where the model covers only the toggle of the pause flag.

The main window keeps the queue as lines of text, `<status> <link>`. The
worker's signals rewrite the status of a line. A new session downloads the
links whose status is not final (completed or failed). The session file
stores the lines as `(status, link)` records. Links are found in pasted or
loaded text with the pattern `https?://[^\s#]+`.

The modules of the model:

| module | contents |
|---|---|
| `Text` | Python's `find` and `in` on strings |
| `ChunkPlan` | the spans of a chunked download and their `Range` headers |
| `Strategy` | the choice between the chunked download and the single stream |
| `OutputFile` | the output file as a byte sequence; class `File` with `Truncate`, `WriteAt`, `Append` |
| `ChunkRetry` | the bounded retry of one chunk |
| `SpeedMeter` | the throttled rate measurement |
| `FileName` | the local file name of a download |
| `Events` | the worker's Qt signals as values |
| `Transfer` | one file transfer as functions of the worker's state and of what the network does |
| `QueueRun` | the worker's queue loop as a function of how each link ends |
| `QueueText` | the queue lines, the next session's links, the session file and the link scanner; class `QueueList` |
| `Worker` | class `DownloaderWorker`, whose methods update its flags, meter and signal list in place |

Each method of `Worker.DownloaderWorker` is proved to leave the worker and
the output file as the matching model function says:

- `DownloadChunk` follows `ChunkRetry.RunAttempts`;
- `UpdateSpeedMetrics` follows `SpeedMeter.Measure`;
- the transfer methods follow the functions of `Transfer`;
- `HandleLink` and `Run` follow `QueueRun`, for the signals, the flag and
  the speed meter. Each link's outcome gives the meter that its transfer
  left (`meterAfter`), and the pause flag is left alone.

The properties of the download and of the session are proved about those
functions. Some of the functions carry no contract of their own, because a
contract on them would sit in every proof that unfolds them. Their
properties are stated by the lemmas named beside them in the table:

- `Transfer.ChunkStep` by `ChunkStepEffects`;
- `QueueRun.LinkEvents` and `Terminal` by `LinkEventsShape`;
- `QueueRun.ActiveAfter` by `LinkEventsShape` and `RunSignals`;
- `QueueRun.MeterFrom` by `MeterUntouched` and `LastTakenMeter`;
- `ChunkPlan.SpanCount` by `SpanCountBounds`;
- `QueueText.LinkOf` by `LinkOfSuffix` and `LinkOfLine`;
- `QueueText.Line` by `SplitLine`;
- `QueueText.FindLinks` by `FoundLinksAreLinks`, `NoLinkIffNoMatch` and
  `LeftmostMatch`.

Everything outside the worker's control enters the model as a parameter:

- **the network:** bodies, failures, headers;
- **the clock:** integer milliseconds;
- **calls of `stop()` from the window thread:** a boolean per place where
  the worker looks at its `active` flag.

## Model

| member | source | states |
|---|---|---|
| ChunkPlan.Plan | FitgirlRepackDownloader.py:114-119 | one span per start in `range(0, total_size, 4 MiB)` |
| ChunkPlan.PlanSpansWellFormed | FitgirlRepackDownloader.py:115-119 | span `i` starts at `i * 4 MiB`, is non-empty, lies inside the file and is at most one chunk long |
| ChunkPlan.OffsetInSpan | FitgirlRepackDownloader.py:119 | offset `j` of span `i` is a byte of the file, and dividing it by 4 MiB gives back `i` |
| ChunkPlan.EmptyFileHasNoSpans | FitgirlRepackDownloader.py:119 | a file of size 0 submits no chunk |
| ChunkPlan.SpanLengths | FitgirlRepackDownloader.py:115-119 | every span but the last is exactly 4 MiB; the last is `size mod 4 MiB` long, or 4 MiB when that is 0 |
| ChunkPlan.SpanCount | FitgirlRepackDownloader.py:119 | no contract of its own; stated by `SpanCountBounds` |
| ChunkPlan.SpanCountBounds | FitgirlRepackDownloader.py:119 | the number of spans is the least number of chunks that reach the size; it is 0 iff the size is 0 |
| ChunkPlan.SpansAreContiguous | FitgirlRepackDownloader.py:119 | the spans start at 0, each ends where the next starts, and the last ends at the size |
| ChunkPlan.ExactCover | FitgirlRepackDownloader.py:119 | a byte lies in some span iff it lies in the file, and then in exactly the span `b / 4 MiB` |
| ChunkPlan.SpansDisjoint | FitgirlRepackDownloader.py:119 | two distinct spans share no byte |
| ChunkPlan.PlanLengthsSumToSize | FitgirlRepackDownloader.py:115-119 | the span lengths add up to the file size |
| ChunkPlan.Decimal | FitgirlRepackDownloader.py:127 | the decimal text of a number in the Range header is non-empty and all digits |
| ChunkPlan.DecimalRoundTrip | FitgirlRepackDownloader.py:127 | reading the decimal text back gives the number |
| ChunkPlan.DecimalNoLeadingZero | FitgirlRepackDownloader.py:127 | like `str(n)`, the text starts with `0` iff the number is 0, so there is no leading zero |
| ChunkPlan.ParseJoinedRange | FitgirlRepackDownloader.py:127 | a `bytes=a-b` value built from two digit strings parses back to their values |
| ChunkPlan.RangeHeader | FitgirlRepackDownloader.py:127 | the header `bytes={start}-{end-1}` parses back to the span's first and last byte, an inclusive range (section 14.1.2 of RFC 9110) |
| ChunkPlan.PlanHeadersNameSpans | FitgirlRepackDownloader.py:119-127 | the header sent for span `i` names the bytes `i * 4 MiB` to the span's end minus one |
| Strategy.StrategyChoice | FitgirlRepackDownloader.py:108-112 | the chunked path is taken iff the size exceeds 4 MiB and `bytes` occurs in the `Accept-Ranges` value (absent header reads as empty) |
| Strategy.SmallOrUnrangedIsSingleStream | FitgirlRepackDownloader.py:108-112 | at most 4 MiB, or `Accept-Ranges: none`, always streams; with `bytes` the size alone decides |
| Strategy.UseChunked | FitgirlRepackDownloader.py:109 | its own contract gives only necessary conditions (a size above 4 MiB, an `Accept-Ranges` value long enough to hold `bytes`); its meaning as an iff is stated by `StrategyChoice` |
| Text.IndexOf | FitgirlRepackDownloader.py:316 | the first occurrence of a character, or none when it does not occur |
| Text.IndexOfFirst | FitgirlRepackDownloader.py:316 | in `x + c + y` with no `c` in `x`, the first `c` is at index `|x|` |
| Text.Contains | FitgirlRepackDownloader.py:109 | Python's `in`: a needle that occurs is no longer than the text |
| Text.ContainsIffOccurs | FitgirlRepackDownloader.py:109 | the `in` test on strings holds iff the needle occurs at some index |
| OutputFile.Zeros | FitgirlRepackDownloader.py:116 | `n` bytes, all zero |
| OutputFile.Overwrite | FitgirlRepackDownloader.py:135 | after `seek(start)` and `write(body)`, the body sits at `start` and the length is the larger of the old length and the write's end |
| OutputFile.OverwriteAt | FitgirlRepackDownloader.py:135 | after a seek and a write, the written range holds the body, other bytes are unchanged, a hole reads 0, and the length is the larger of the old length and the write's end |
| OutputFile.OverwriteInsideKeepsLength | FitgirlRepackDownloader.py:135 | a write inside the file keeps its length and changes only the written range |
| OutputFile.DisjointWritesCommute | FitgirlRepackDownloader.py:119-135 | two writes to disjoint ranges give the same file in either order, so chunks may complete in any order |
| OutputFile.File.Truncate | FitgirlRepackDownloader.py:116 | `truncate(size)` cuts the file to, or pads it with zeros to, exactly `size` bytes |
| OutputFile.File.WriteAt | FitgirlRepackDownloader.py:135 | seek-and-write replaces the file by `Overwrite` of it |
| OutputFile.File.Append | FitgirlRepackDownloader.py:149 | a streamed write appends the buffer |
| ChunkRetry.RunAttempts | FitgirlRepackDownloader.py:126-139 | the loop over three attempts: a body is written after at least one and at most three requests; a stop is seen after fewer than three requests |
| ChunkRetry.RunAttemptsCases | FitgirlRepackDownloader.py:128-139 | a body is written iff every earlier attempt went ahead and failed and this one got it; the chunk stops exactly where the flag is first seen off; it gives up iff all three attempts failed |
| ChunkRetry.RetryCap | FitgirlRepackDownloader.py:128-139 | at most three requests per chunk, exactly three when it gives up; `None` is returned iff nothing was written |
| ChunkRetry.FirstSuccessWins | FitgirlRepackDownloader.py:131-135 | the first attempt that gets a body decides the result: that body's length after exactly that many requests |
| ChunkRetry.InactiveIssuesNothing | FitgirlRepackDownloader.py:129-130 | with the flag already off, the chunk returns `None` before any request |
| SpeedMeter.Measure | FitgirlRepackDownloader.py:151-157 | after a report there is a baseline; an emitted rate moves it to `(now, downloaded)`, and without a rate an existing baseline stays |
| SpeedMeter.MeasureEvents | FitgirlRepackDownloader.py:151-157 | a report always emits the byte count first, then the rate exactly when `Measure` gives one |
| SpeedMeter.FirstCallSetsBaseline | FitgirlRepackDownloader.py:153 | the first report only records the baseline and emits no rate |
| SpeedMeter.ThrottleRule | FitgirlRepackDownloader.py:154-157 | a rate is emitted iff more than 500 ms passed since the baseline; it is the byte delta over the window and the baseline moves; otherwise the baseline stays |
| SpeedMeter.RateNonNegativeWhenGrowing | FitgirlRepackDownloader.py:156 | the rate is not negative while the byte count does not shrink |
| SpeedMeter.BaselineCarriesAcrossFiles | FitgirlRepackDownloader.py:153-157 | the baseline survives from one file to the next, so the first rate of a later file can be negative |
| SpeedMeter.MeasureMovesBaseline | FitgirlRepackDownloader.py:151-157 | one report always leaves a baseline; an emission moves it to the report's time, more than 500 ms after the old one |
| SpeedMeter.EmissionsAreThrottled | FitgirlRepackDownloader.py:151-157 | over any stream of reports, consecutive rate emissions are more than 500 ms apart |
| FileName.Sanitize | FitgirlRepackDownloader.py:160 | removing `\ / * ? : " < > |` leaves no such character and never lengthens the title |
| FileName.SanitizeAppend | FitgirlRepackDownloader.py:160 | the removal works character by character and keeps the order |
| FileName.SanitizeOne | FitgirlRepackDownloader.py:160 | a single character is dropped iff it is illegal |
| FileName.SanitizeMembers | FitgirlRepackDownloader.py:160 | a character is in the result iff it is a legal character of the title |
| FileName.SanitizeFixesLegal | FitgirlRepackDownloader.py:160 | a title is unchanged iff it has no illegal character |
| FileName.SanitizeIdempotent | FitgirlRepackDownloader.py:160 | removing twice is removing once |
| FileName.BaseName | FitgirlRepackDownloader.py:161 | `os.path.basename` is the suffix after the last `/`, with no `/` in it |
| FileName.CutAtQuery | FitgirlRepackDownloader.py:161 | `split("?")[0]` is the prefix before the first `?`, with no `?` in it |
| FileName.ExtractFilename | FitgirlRepackDownloader.py:159-161 | with a title, the name is no longer than the title; without one, the name is a prefix of the link's last segment |
| FileName.FilenameHasNoSeparator | FitgirlRepackDownloader.py:159-161 | a file name never holds `/` or `?`; a titled page's name holds no illegal character |
| FileName.FallbackIsLastSegment | FitgirlRepackDownloader.py:161 | without a title, `…/segment?query` is saved as `segment` |
| Transfer.ChunkStep | FitgirlRepackDownloader.py:120-124 | no contract of its own; stated by `ChunkStepEffects` |
| Transfer.ChunkStepEffects | FitgirlRepackDownloader.py:120-124 | one collected chunk only clears the flag, never shortens the file or the total, and emits only progress and rate signals; a counted chunk reports the new total first, an uncounted one emits nothing and keeps the meter |
| Transfer.ChunkLoop | FitgirlRepackDownloader.py:120-124 | collecting the chunks only clears the flag, never shortens the file or the total, and appends only progress and rate signals |
| Transfer.Chunked | FitgirlRepackDownloader.py:114-124 | the chunked download leaves at least `total_size` bytes, only clears the flag, and emits only progress and rate signals |
| Transfer.ReportsAppend | FitgirlRepackDownloader.py:120-124 | two runs of progress and rate signals, one after the other, are again such a run |
| Transfer.ChunkLoopCounts | FitgirlRepackDownloader.py:120-124 | without a stop, every chunk is collected and the running total is the sum of the successful bodies' lengths |
| Transfer.ChunkedDownloadResult | FitgirlRepackDownloader.py:114-139 | without a stop, the file keeps exactly `total_size` bytes; each byte is the covering chunk's body byte, or 0 where that chunk gave up, and the download still returns normally |
| Transfer.ChunkedByte | FitgirlRepackDownloader.py:114-139 | one byte of the chunked download's result, as `ChunkedDownloadResult` states it |
| Transfer.ExactByteAt | FitgirlRepackDownloader.py:119-136 | with exact bodies, the byte expected at offset `j` of span `k` is byte `j` of chunk `k`'s body |
| Transfer.ChunkedDownloadComplete | FitgirlRepackDownloader.py:114-139 | when every chunk gets a body of its span's length, the file is `total_size` bytes, byte `j` of span `k` is byte `j` of chunk `k`'s body, and the total reaches the size |
| Transfer.StopEndsChunkedDownload | FitgirlRepackDownloader.py:121-122 | a chunk that finds the flag off ends the download: its body stays in the file, it is not counted, no further chunk is collected |
| Transfer.StreamStep | FitgirlRepackDownloader.py:149 | one buffer is appended to the file and counted, and the new total is reported first, followed only by progress and rate signals |
| Transfer.StreamLoop | FitgirlRepackDownloader.py:146-149 | the stream only clears the flag, appends to the file, counts exactly the appended bytes and emits only progress and rate signals |
| Transfer.PrefixStep | FitgirlRepackDownloader.py:146-149 | when the rest of the stream appends `n` buffers after the first, the whole stream appends the first `n + 1` |
| Transfer.StreamAppendsPrefix | FitgirlRepackDownloader.py:146-149 | whatever the stops, the file grows by a prefix of the stream and the total by exactly those bytes; the flag is only switched off |
| Transfer.StreamAppendsAll | FitgirlRepackDownloader.py:146-149 | without a stop the whole stream is appended and counted |
| Transfer.DownloadFile | FitgirlRepackDownloader.py:108-112 | the flag is only cleared, only progress and rate signals are emitted, and in the model the chunked path never raises |
| Transfer.DownloadFileStrategy | FitgirlRepackDownloader.py:108-112 | under the strategy predicate the result is exactly `Done` with the chunked download's file, flag, meter and total and its signals appended; a failed HEAD raises with nothing changed; otherwise the single stream runs |
| Transfer.SingleStream | FitgirlRepackDownloader.py:141-149 | the flag is only cleared; a refused request raises with nothing changed; a stream leaves the total equal to the file's length and emits only progress and rate signals |
| Transfer.SingleStreamWritesAll | FitgirlRepackDownloader.py:141-149 | without a stop, the file is exactly the streamed bytes, the total is its length, and it raises exactly when the stream breaks |
| Transfer.StoppedStreamDoesNotRaise | FitgirlRepackDownloader.py:147-148 | a stream cut short by the flag returns normally, whatever would have followed |
| QueueRun.RunFrom | FitgirlRepackDownloader.py:62-85 | the loop over the links only ever clears the flag |
| QueueRun.Terminal | FitgirlRepackDownloader.py:69-81 | no contract of its own; stated by `LinkEventsShape` |
| QueueRun.ActiveAfter | FitgirlRepackDownloader.py:76-84 | no contract of its own; stated by `LinkEventsShape` and `RunSignals` |
| QueueRun.LinkEvents | FitgirlRepackDownloader.py:66-84 | no contract of its own; stated by `LinkEventsShape` and `LinkEventsProjection` |
| QueueRun.LinkEventsShape | FitgirlRepackDownloader.py:66-84 | a link's signals open with its started signal and the `Processing Link idx+1/total` line and end with overall progress when the flag is on at `finally`; a raise ends in the failed signal; a return opens with the file info and, when nothing stopped the worker, ends with the finished line and the completed signal |
| QueueRun.RunSignals | FitgirlRepackDownloader.py:62-85 | started signals name exactly the taken links in input order; failed signals go exactly to the taken links that raised; completed signals exactly to those that returned with the flag still on |
| QueueRun.AllStarted | FitgirlRepackDownloader.py:67 | a step of `RunSignals`: the reference selection of started links is every taken link |
| QueueRun.CompletedOrFailed | FitgirlRepackDownloader.py:78-81 | a step of `UninterruptedSession`: with no stop during processing, the reference selections of completed and of failed links have as many entries together as there are taken links |
| QueueRun.LinkEventsProjection | FitgirlRepackDownloader.py:66-84 | one taken link emits its link once per signal kind it gets, and overall progress `(idx+1, total)` iff the flag is on at `finally` |
| QueueRun.UninterruptedRun | FitgirlRepackDownloader.py:62-85 | a session nobody stops takes every link, keeps the flag on, and reports progress `(k, n)` for each `k` in turn |
| QueueRun.UninterruptedSession | FitgirlRepackDownloader.py:57-87 | with no stop, every link is started in order and gets exactly one of completed or failed; progress counts `(1, n)` … `(n, n)` |
| QueueRun.StopIsFinal | FitgirlRepackDownloader.py:63-65 | once the loop finds the flag off, no further link is taken and the stop line and the final line are the last two signals |
| QueueRun.ThreeLinksMiddleFails | FitgirlRepackDownloader.py:57-87 | three links whose middle one raises: first and third complete, the second fails, progress reaches `(3, 3)` |
| QueueRun.MeterOf | FitgirlRepackDownloader.py:153-157 | a link whose transfer never reported progress leaves the worker's speed baseline as it was |
| QueueRun.MeterFrom | FitgirlRepackDownloader.py:62-85 | no contract of its own; stated by `MeterFromTaking`, `MeterUntouched`, `MeterUntouchedStop` and `LastTakenMeter` |
| QueueRun.MeterFromTaking | FitgirlRepackDownloader.py:62-85 | taking a link moves the baseline to the one that link's transfer left, and the session goes on from there |
| QueueRun.MeterUntouched | FitgirlRepackDownloader.py:62-85 | a session none of whose transfers reports progress ends with the baseline it started with |
| QueueRun.MeterUntouchedStop | FitgirlRepackDownloader.py:62-65 | a session that takes no link ends with the baseline it started with |
| QueueRun.LastTakenMeter | FitgirlRepackDownloader.py:62-85 | the session ends with the baseline of the last taken link, when that link moved it |
| QueueText.MarksAreWords | FitgirlRepackDownloader.py:323 | the four status marks hold no space |
| QueueText.SplitOnce | FitgirlRepackDownloader.py:316 | `split(" ", 1)` gives two parts iff the text has a space, else the text alone |
| QueueText.SplitOnceJoins | FitgirlRepackDownloader.py:420 | a text with a space is a space-free status, a space and the rest |
| QueueText.Line | FitgirlRepackDownloader.py:433 | no contract of its own; stated by `SplitLine` and `Lines` |
| QueueText.SplitLine | FitgirlRepackDownloader.py:316 | cutting `status + " " + link` gives back the status and the link, whatever the link holds |
| QueueText.LinkOf | FitgirlRepackDownloader.py:316 | no contract of its own; stated by `LinkOfSuffix` and `LinkOfLine` |
| QueueText.LinkOfSuffix | FitgirlRepackDownloader.py:316 | `split(" ", 1)[-1]` is a suffix of the line: the whole line when it has no space, else what follows the first space |
| QueueText.LinkOfLine | FitgirlRepackDownloader.py:360 | the link read off a line is the link it was built with |
| QueueText.Processed | FitgirlRepackDownloader.py:360 | a line counts as done only when it starts with `✅` or `❌` |
| QueueText.Pick | FitgirlRepackDownloader.py:360 | a line gives at most one link, and none exactly when it is done |
| QueueText.LinksToDownload | FitgirlRepackDownloader.py:360 | a new session downloads at most as many links as there are lines |
| QueueText.LinksToDownloadAppend | FitgirlRepackDownloader.py:360 | the links are picked line by line, in queue order |
| QueueText.LinksAround | FitgirlRepackDownloader.py:360 | a line drops out of the next session exactly when its status is final |
| QueueText.LinksToDownloadMembers | FitgirlRepackDownloader.py:360 | a link is in the next session iff some line whose status is not final carries it |
| QueueText.WaitingQueueYieldsLinks | FitgirlRepackDownloader.py:320-325 | a freshly populated queue yields all of its links back, in order |
| QueueText.FirstContaining | FitgirlRepackDownloader.py:313-315 | the first line in which the link occurs as a substring, or none |
| QueueText.FirstWithLink | FitgirlRepackDownloader.py:313-316 | the first line whose link is exactly the given one, or none |
| QueueText.SubstringMatchMarksWrongLine | FitgirlRepackDownloader.py:312-318 | as written, completing `http://x/a1` marks the earlier line `http://x/a10`, and the next session fetches `a1` again |
| QueueText.ExactMarkSkipsLink | FitgirlRepackDownloader.py:312-318 | with an exact match, only the link's line changes, it keeps its link, and a final mark drops exactly that link from the next session |
| QueueText.Relabel | FitgirlRepackDownloader.py:316 | relabelling keeps the number of lines and every line but the chosen one |
| QueueText.MarkLine | FitgirlRepackDownloader.py:316 | relabelling a line keeps its link; a final mark drops it from the next session and leaves the others |
| QueueText.Records | FitgirlRepackDownloader.py:416-420 | saving succeeds iff every line has a space; then each record is a space-free status and a link that rebuild the line |
| QueueText.Lines | FitgirlRepackDownloader.py:430-435 | loading builds one line `status + " " + link` per record, in order |
| QueueText.SaveThenLoad | FitgirlRepackDownloader.py:416-435 | saving then loading restores the queue line for line |
| QueueText.LoadThenSave | FitgirlRepackDownloader.py:416-435 | loading then saving gives the same records iff no status holds a space |
| QueueText.BodyLength | FitgirlRepackDownloader.py:343 | `[^\s#]+` takes the longest run of characters that are neither whitespace nor `#` |
| QueueText.FindLinks | FitgirlRepackDownloader.py:343 | no contract of its own; stated by `FoundLinksAreLinks`, `LeftmostMatch` and `NoLinkIffNoMatch` |
| QueueText.FoundLinksAreLinks | FitgirlRepackDownloader.py:343 | every link found is a whole match of `https?://[^\s#]+` and occurs in the text |
| QueueText.MatchIsLink | FitgirlRepackDownloader.py:343 | a match at the start of the text is a link |
| QueueText.LinkThenSpace | FitgirlRepackDownloader.py:336 | a link followed by a space is found whole, and the search goes on after the space |
| QueueText.MatchIsMaximal | FitgirlRepackDownloader.py:343 | the match at a position is a link and the next character could not extend it |
| QueueText.MatchFirst | FitgirlRepackDownloader.py:343 | a text that starts with a match yields that match first, then the links of the rest |
| QueueText.NoMatchSkips | FitgirlRepackDownloader.py:343 | a first character that starts no match is skipped |
| QueueText.ShiftedMatch | FitgirlRepackDownloader.py:343 | a match found after the first character is the same match in the whole text |
| QueueText.LeftmostMatch | FitgirlRepackDownloader.py:343 | the first link found is the leftmost match, taken whole, and the search goes on after it |
| QueueText.NoLinkIffNoMatch | FitgirlRepackDownloader.py:343 | no link is found iff no position of the text starts `https?://` followed by a character that is neither whitespace nor `#` |
| QueueText.QueueList.constructor | FitgirlRepackDownloader.py:236 | a new queue is empty |
| QueueText.QueueList.Populate | FitgirlRepackDownloader.py:320-325 | with no links the queue is left alone; otherwise it becomes one waiting line per link, in order |
| QueueText.QueueList.UpdateLinkStatus | FitgirlRepackDownloader.py:312-318 | the first line containing the link as a substring gets the new status, other lines are unchanged |
| QueueText.QueueList.UpdateLinkStatusExact | FitgirlRepackDownloader.py:312-318 | the first line whose link equals the given one gets the new status |
| QueueText.QueueList.SaveSession | FitgirlRepackDownloader.py:416-420 | the saved records are `Records` of the queue, or none when a line has no space |
| QueueText.QueueList.LoadSession | FitgirlRepackDownloader.py:426-435 | the queue becomes `Lines` of the records |
| Worker.StoppedRun | FitgirlRepackDownloader.py:63-65 | when the loop finds the flag off, the stop line and the final line end the session |
| Worker.DownloaderWorker.constructor | FitgirlRepackDownloader.py:41-47 | a new worker has its links, the flag on, no pause, no baseline and no signal |
| Worker.DownloaderWorker.Stop | FitgirlRepackDownloader.py:49-50 | `stop()` clears the flag and changes nothing else |
| Worker.DownloaderWorker.TogglePause | FitgirlRepackDownloader.py:52-55 | the pause flag flips and the new state is logged |
| Worker.DownloaderWorker.UpdateSpeedMetrics | FitgirlRepackDownloader.py:151-157 | the byte count is reported and the meter and rate follow `Measure` |
| Worker.DownloaderWorker.DownloadChunk | FitgirlRepackDownloader.py:126-139 | the result, the file and the flag are as `RunAttempts` says |
| Worker.DownloaderWorker.ChunkedDownload | FitgirlRepackDownloader.py:114-124 | the file, flag, meter and signals end as `Chunked` says |
| Worker.DownloaderWorker.CompleteChunk | FitgirlRepackDownloader.py:120-124 | one collected chunk changes the state as `ChunkStep` says |
| Worker.DownloaderWorker.ConsumeBuffer | FitgirlRepackDownloader.py:149 | one consumed buffer changes the state as `StreamStep` says |
| Worker.DownloaderWorker.StreamBuffers | FitgirlRepackDownloader.py:146-149 | the file, flag, meter and signals end as `StreamLoop` says, and the loop reports a break exactly when the flag went off |
| Worker.DownloaderWorker.SingleThreadDownload | FitgirlRepackDownloader.py:141-149 | the outcome, file, flag, meter and signals are as `SingleStream` says |
| Worker.DownloaderWorker.DownloadFile | FitgirlRepackDownloader.py:108-112 | the outcome and the new state are as `Transfer.DownloadFile` says |
| Worker.DownloaderWorker.ProcessLink | FitgirlRepackDownloader.py:69-81 | processing a link emits `Terminal`, leaves the flag off exactly when it was stopped meanwhile, and the meter as `MeterOf` says |
| Worker.DownloaderWorker.HandleLink | FitgirlRepackDownloader.py:66-84 | one taken link emits `LinkEvents`, leaves the flag as `ActiveAfter` and the meter as `MeterOf` say, and the pause flag alone |
| Worker.DownloaderWorker.Run | FitgirlRepackDownloader.py:57-87 | the session's signals are the start line followed by `RunFrom` of the links, the flag ends as it says, the meter as `MeterFrom` says, and the links and the pause flag are unchanged |

## Left out

- The Qt user interface is not modelled. That covers the widgets, colours, status messages, the tray icon, drag and drop, and `on_download_finished`. Only the text of the queue lines is kept.
- `process_link` and `extract_download_url` are not modelled: they fetch the page over the network and search it with BeautifulSoup. The model keeps only how processing a link ends (`QueueRun.LinkOutcome`) and the file name rule (`FileName.ExtractFilename`), whose page title is an input.
- The HEAD request for `content-length` is not modelled. Its size reaches the model as an input.
- Network requests, file system calls (`os.makedirs`, `open`, JSON encoding) and `time.sleep` are not modelled. The results of the network calls and the clock are inputs: bodies, failures, headers and clock readings. The file system calls on the download path are assumed to succeed; the next two lines name the members this affects.
- Transfer.DownloadFile: `open(path, 'wb')` and `truncate(total_size)` at FitgirlRepackDownloader.py:116 are assumed to succeed, so the chunked path never raises in the model. In the source they can raise (an empty file name, a denied permission, a full disk), and the link is then reported failed at :79-81. The other opens are covered by inputs: a failed `open(path, 'wb')` at :145 raises before any byte is written, which `Transfer.StreamEnv`'s `Refused` case gives; a failed `open(path, 'r+b')` at :135 is caught at :137 like any failed attempt of `ChunkRetry`.
- Worker.DownloaderWorker.Run: `os.makedirs` at FitgirlRepackDownloader.py:58 is assumed to succeed, so the session always emits its start line. In the source a failure there ends `run` before the start line.
- A missing session file is not modelled: `os.path.exists` is outside the model.
- `ThreadPoolExecutor` is not modelled: the model completes the chunks one after another in plan order. `OutputFile.DisjointWritesCommute` shows that disjoint chunk writes give the same file in any order. The running total is a sum, so the order does not change it either.
- Other completion orders of the speed reports and the stop point are not modelled.
- The mutex is not modelled.
- `_check_pause` is not modelled. It only delays a step until the pause flag is cleared, so it is left out along with the busy wait.
- `stop()` from the window thread is modelled as a boolean at each place where the worker reads its flag.
- Floating-point time and rates are not modelled. Time is integer milliseconds and the rate is a real number. The MB formatting of log lines is left out, and a log line keeps only its kind and arguments.
- `os.path.basename` is modelled for `/` only. On Windows, `\` also separates path segments.
- Worker.DownloaderWorker.Run: the outcome of each link is a parameter (`LinkEnv`); the run is not composed with `DownloadFile`. The signals a transfer emits appear as the outcome's `emitted` list, and the speed baseline it leaves as the outcome's `meterAfter`.
- Transfer.ChunkedDownloadResult: requires that every body fits its span. A server that ignores the `Range` header and sends more would make the source's write spill over the next span; the model does not state that case.
- Transfer.Chunked: requires three attempt descriptions per chunk (`AttemptsShaped`). This is how the environment is written, not a demand of the source.

Where the code and its description differ, the model follows the code:

- The speed baseline lives on the worker (`hasattr`), not on the file. It carries over from one file to the next, so the first rate of a later file can be negative (`SpeedMeter.BaselineCarriesAcrossFiles`).
- A link whose processing returns after `stop()` gets neither a completed nor a failed signal.
- A chunk that fails three times leaves zeros in its span, and the chunked download still returns normally. The link is then reported as completed.
- In `save_session`, a line without a space makes the unpacking raise outside the `try`. Nothing is written, which the model shows as `None`.

## Findings

| source | as written | input that shows it | evidently intended | confidence | as-written member | corrected member |
|---|---|---|---|---|---|---|
| FitgirlRepackDownloader.py:312-318 | `_update_link_status` relabels the first line whose text contains the link as a substring | queue `🕒 http://x/a10`, `🕒 http://x/a1`; link `http://x/a1` completes | relabel the line whose link equals the signalled link | not executed | QueueText.SubstringMatchMarksWrongLine | QueueText.ExactMarkSkipsLink |
