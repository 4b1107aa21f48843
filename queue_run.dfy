/** The worker's queue loop (`run`): links are processed one after another
    in input order; what processing one link does is abstracted to how it
    ends (it returns, or it raises) and to when `stop()` is called around it. */
module QueueRun {
  import opened Wrappers
  import opened Events
  import opened Text
  import SpeedMeter

  /** How processing one link ends: `process_link`, the HEAD probe and
      `download_file` return (with the file name and the announced size), or
      one of them raises. `emitted` holds the signals the transfer emitted
      (progress, speed), and for a raise everything emitted before it;
      `meterAfter` is the speed meter the transfer left, or `None` when it
      never reported progress. */
  datatype LinkOutcome =
    | Returned(fileName: string, totalSize: int, emitted: seq<Event>, meterAfter: Option<SpeedMeter.Meter>)
    | Raised(reason: string, emitted: seq<Event>, meterAfter: Option<SpeedMeter.Meter>)

  /** Signals that neither name a link nor count overall progress: those a
      transfer emits. */
  predicate Quiet(evs: seq<Event>) {
    forall k :: 0 <= k < |evs| ==> (evs[k].Log? || evs[k].FileProgress? || evs[k].FileInfo? || evs[k].Speed?)
  }

  predicate QuietEnvs(envs: seq<LinkEnv>) {
    forall j :: 0 <= j < |envs| ==> Quiet(envs[j].outcome.emitted)
  }

  /** What happens around one link: whether `stop()` was called before the
      loop's check of the flag, how processing ends, whether `stop()` was
      called during processing (before the completion check), and whether it
      was called just before the `finally` clause's check. */
  datatype LinkEnv = LinkEnv(stopBeforeCheck: bool, outcome: LinkOutcome, stopDuring: bool, stopBeforeFinally: bool)

  /** The signals of processing a link after its announcement: for a link
      that returned, the file's name and size, the transfer's signals, and
      the completion signals only when the flag is still on; for one that
      raised, what was emitted before the raise and then the error signals. */
  function Terminal(idx: nat, link: string, env: LinkEnv): seq<Event> {
    match env.outcome
    case Returned(name, size, emitted, _) =>
      [FileInfo(name, size), Log(StartingFile(name, size))] + emitted +
      (if !env.stopDuring then [Log(FinishedFile(name)), LinkCompleted(link)] else [])
    case Raised(reason, emitted, _) => emitted + [Log(LinkError(idx + 1, reason)), LinkFailed(link)]
  }

  /** Whether the flag is still on at the `finally` clause of a taken link. */
  predicate ActiveAfter(env: LinkEnv) {
    !env.stopDuring && !env.stopBeforeFinally
  }

  /** The signals for the link at index `idx` once it passed the flag check. */
  function LinkEvents(idx: nat, total: nat, link: string, env: LinkEnv): seq<Event>
  {
    [LinkStarted(link), Log(ProcessingLink(idx + 1, total))] + Terminal(idx, link, env) +
      (if ActiveAfter(env) then [OverallProgress(idx + 1, total)] else [])
  }

  /** The shape of one taken link's signals: it is announced first; a link
      that raised ends its processing with a failed signal; one that returned
      with the flag still on ends it with the finished line and a completed
      signal; and while the flag is on at `finally` the overall progress
      `(idx + 1, total)` comes last. */
  lemma LinkEventsShape(idx: nat, total: nat, link: string, env: LinkEnv)
    ensures var r := LinkEvents(idx, total, link, env);
      |r| >= 4 && r[0] == LinkStarted(link) && r[1] == Log(ProcessingLink(idx + 1, total)) &&
      (ActiveAfter(env) ==> r[|r| - 1] == OverallProgress(idx + 1, total))
    ensures var t := Terminal(idx, link, env);
      |t| >= 2 &&
      (env.outcome.Raised? ==> t[|t| - 1] == LinkFailed(link)) &&
      (env.outcome.Returned? ==> t[0] == FileInfo(env.outcome.fileName, env.outcome.totalSize)) &&
      (env.outcome.Returned? && !env.stopDuring ==>
         t[|t| - 2] == Log(FinishedFile(env.outcome.fileName)) && t[|t| - 1] == LinkCompleted(link))
  {
  }

  datatype RunResult = RunResult(events: seq<Event>, active: bool)

  /** The loop from link `i` on, with `active` the flag as last seen: a link
      is taken only if the flag is still on when the loop reaches it;
      otherwise the loop logs the stop and ends. */
  function RunFrom(links: seq<string>, envs: seq<LinkEnv>, i: nat, active: bool): (r: RunResult)
    requires |envs| == |links| && i <= |links|
    ensures r.active ==> active
    decreases |links| - i
  {
    if i == |links| then RunResult([Log(SessionFinished)], active)
    else if !active || envs[i].stopBeforeCheck then RunResult([Log(StoppedByUser), Log(SessionFinished)], false)
    else
      var rest := RunFrom(links, envs, i + 1, ActiveAfter(envs[i]));
      RunResult(LinkEvents(i, |links|, links[i], envs[i]) + rest.events, rest.active)
  }

  lemma AppendAssoc(a: seq<Event>, b: seq<Event>, c: seq<Event>)
    ensures a + (b + c) == (a + b) + c
  {
  }

  /** One turn of the loop when it takes link `i`. */
  lemma RunFromTaking(links: seq<string>, envs: seq<LinkEnv>, i: nat, step: seq<Event>, rest: RunResult)
    requires |envs| == |links| && i < |links| && !envs[i].stopBeforeCheck
    requires step == LinkEvents(i, |links|, links[i], envs[i]) && rest == RunFrom(links, envs, i + 1, ActiveAfter(envs[i]))
    ensures RunFrom(links, envs, i, true) == RunResult(step + rest.events, rest.active)
  {
  }

  /** How many links from `i` on the loop takes before it stops. */
  function Taken(links: seq<string>, envs: seq<LinkEnv>, i: nat, active: bool): nat
    requires |envs| == |links| && i <= |links|
    decreases |links| - i
  {
    if i == |links| || !active || envs[i].stopBeforeCheck then 0
    else 1 + Taken(links, envs, i + 1, ActiveAfter(envs[i]))
  }

  /** The speed meter once a link has been processed: the one its transfer
      left, or the one it found when the transfer never reported. */
  function MeterOf(env: LinkEnv, m: SpeedMeter.Meter): (r: SpeedMeter.Meter)
    ensures env.outcome.meterAfter.None? ==> r == m
  {
    match env.outcome.meterAfter
    case Some(m') => m'
    case None => m
  }

  /** The speed meter after the loop from link `i` on, starting from `m`:
      the worker keeps one meter for the whole session, so each taken link
      starts from the meter the previous one left. */
  function MeterFrom(links: seq<string>, envs: seq<LinkEnv>, i: nat, active: bool, m: SpeedMeter.Meter): SpeedMeter.Meter
    requires |envs| == |links| && i <= |links|
    decreases |links| - i
  {
    if i == |links| || !active || envs[i].stopBeforeCheck then m
    else MeterFrom(links, envs, i + 1, ActiveAfter(envs[i]), MeterOf(envs[i], m))
  }

  /** One turn of the loop when it takes link `i`, as seen by the meter. */
  lemma MeterFromTaking(links: seq<string>, envs: seq<LinkEnv>, i: nat, m: SpeedMeter.Meter)
    requires |envs| == |links| && i < |links| && !envs[i].stopBeforeCheck
    ensures MeterFrom(links, envs, i, true, m) == MeterFrom(links, envs, i + 1, ActiveAfter(envs[i]), MeterOf(envs[i], m))
  {
  }

  /** When no taken transfer reports progress, the meter is left as it was. */
  lemma {:induction false} MeterUntouched(links: seq<string>, envs: seq<LinkEnv>, i: nat, active: bool, m: SpeedMeter.Meter)
    requires |envs| == |links| && i <= |links|
    requires forall j :: i <= j < |envs| ==> envs[j].outcome.meterAfter.None?
    ensures MeterFrom(links, envs, i, active, m) == m
    decreases |links| - i
  {
    if !(i == |links| || !active || envs[i].stopBeforeCheck) {
      MeterUntouched(links, envs, i + 1, ActiveAfter(envs[i]), MeterOf(envs[i], m));
    }
  }

  /** The meter is carried from link to link: when the last taken link's
      transfer reported progress, the session ends with the meter that
      transfer left, whatever the earlier links did. */
  lemma {:induction false} LastTakenMeter(links: seq<string>, envs: seq<LinkEnv>, i: nat, active: bool,
                                          m: SpeedMeter.Meter, last: nat)
    requires |envs| == |links| && i <= |links|
    requires Taken(links, envs, i, active) > 0 && last + 1 == i + Taken(links, envs, i, active)
    ensures last < |envs|
    ensures envs[last].outcome.meterAfter.Some? ==>
      MeterFrom(links, envs, i, active, m) == envs[last].outcome.meterAfter.value
    decreases |links| - i
  {
    var a := ActiveAfter(envs[i]);
    assert Taken(links, envs, i, active) == 1 + Taken(links, envs, i + 1, a);
    if Taken(links, envs, i + 1, a) > 0 {
      LastTakenMeter(links, envs, i + 1, a, MeterOf(envs[i], m), last);
    } else {
      assert last == i;
      MeterUntouchedStop(links, envs, i + 1, a, MeterOf(envs[i], m));
    }
  }

  lemma MeterUntouchedStop(links: seq<string>, envs: seq<LinkEnv>, i: nat, active: bool, m: SpeedMeter.Meter)
    requires |envs| == |links| && i <= |links| && Taken(links, envs, i, active) == 0
    ensures MeterFrom(links, envs, i, active, m) == m
  {
  }

  // ---- projections of the signal stream ----

  datatype LinkSignal = StartedSignal | CompletedSignal | FailedSignal

  predicate IsSignal(e: Event, kind: LinkSignal) {
    match kind
    case StartedSignal => e.LinkStarted?
    case CompletedSignal => e.LinkCompleted?
    case FailedSignal => e.LinkFailed?
  }

  /** The links carried by the signals of one kind, in emission order. */
  function LinksOf(evs: seq<Event>, kind: LinkSignal): seq<string> {
    if evs == [] then []
    else (if IsSignal(evs[0], kind) then [evs[0].link] else []) + LinksOf(evs[1..], kind)
  }

  /** The overall-progress pairs, in emission order. */
  function ProgressOf(evs: seq<Event>): seq<(nat, nat)> {
    if evs == [] then []
    else (if evs[0].OverallProgress? then [(evs[0].done, evs[0].total)] else []) + ProgressOf(evs[1..])
  }

  lemma {:induction false} LinksOfAppend(a: seq<Event>, b: seq<Event>, kind: LinkSignal)
    ensures LinksOf(a + b, kind) == LinksOf(a, kind) + LinksOf(b, kind)
  {
    if a != [] {
      AppendHead(a, b);
      LinksOfAppend(a[1..], b, kind);
    } else {
      AppendHead(a, b);
    }
  }

  lemma {:induction false} ProgressOfAppend(a: seq<Event>, b: seq<Event>)
    ensures ProgressOf(a + b) == ProgressOf(a) + ProgressOf(b)
  {
    if a != [] {
      AppendHead(a, b);
      ProgressOfAppend(a[1..], b);
    } else {
      AppendHead(a, b);
    }
  }

  // ---- what each processed link should get ----

  /** Whether a taken link gets a signal of this kind: every taken link is
      started, one that raised fails, and one that returned with the flag
      still on completes. */
  predicate Gets(env: LinkEnv, kind: LinkSignal) {
    match kind
    case StartedSignal => true
    case FailedSignal => env.outcome.Raised?
    case CompletedSignal => env.outcome.Returned? && !env.stopDuring
  }

  /** The links at indices `lo` to `hi - 1` that get a signal of this kind, in order. */
  function Selected(links: seq<string>, envs: seq<LinkEnv>, lo: nat, hi: nat, kind: LinkSignal): seq<string>
    requires |envs| == |links| && lo <= hi <= |links|
    decreases hi - lo
  {
    if lo == hi then []
    else (if Gets(envs[lo], kind) then [links[lo]] else []) + Selected(links, envs, lo + 1, hi, kind)
  }

  /** The reference selection of started links is every taken link. */
  lemma {:induction false} AllStarted(links: seq<string>, envs: seq<LinkEnv>, lo: nat, hi: nat)
    requires |envs| == |links| && lo <= hi <= |links|
    ensures Selected(links, envs, lo, hi, StartedSignal) == links[lo..hi]
    decreases hi - lo
  {
    if lo < hi {
      AllStarted(links, envs, lo + 1, hi);
      assert links[lo..hi] == [links[lo]] + links[lo + 1..hi];
    }
  }

  /** Without a stop during processing, the selections of completed and of
      failed links together have one entry per taken link. */
  lemma {:induction false} CompletedOrFailed(links: seq<string>, envs: seq<LinkEnv>, lo: nat, hi: nat)
    requires |envs| == |links| && lo <= hi <= |links|
    requires forall j :: 0 <= j < |envs| ==> !envs[j].stopDuring
    ensures |Selected(links, envs, lo, hi, CompletedSignal)| + |Selected(links, envs, lo, hi, FailedSignal)| == hi - lo
    decreases hi - lo
  {
    if lo < hi {
      CompletedOrFailed(links, envs, lo + 1, hi);
    }
  }

  /** The projections of a one-signal stream. */
  lemma Single(e: Event, kind: LinkSignal)
    ensures LinksOf([e], kind) == (if IsSignal(e, kind) then [e.link] else [])
    ensures ProgressOf([e]) == (if e.OverallProgress? then [(e.done, e.total)] else [])
  {
    assert [e][1..] == [];
  }

  /** A quiet stream carries no link signal and no overall progress. */
  lemma {:induction false} OnlyLogLines(evs: seq<Event>, kind: LinkSignal)
    requires Quiet(evs)
    ensures LinksOf(evs, kind) == []
    ensures ProgressOf(evs) == []
  {
    if evs != [] {
      OnlyLogLines(evs[1..], kind);
    }
  }

  /** The projections of a two-signal stream. */
  lemma Pair(a: Event, b: Event, kind: LinkSignal)
    ensures LinksOf([a, b], kind) == LinksOf([a], kind) + LinksOf([b], kind)
    ensures ProgressOf([a, b]) == ProgressOf([a]) + ProgressOf([b])
  {
    assert [a, b] == [a] + [b];
    LinksOfAppend([a], [b], kind);
    ProgressOfAppend([a], [b]);
  }

  lemma TerminalProjection(idx: nat, link: string, env: LinkEnv, kind: LinkSignal)
    requires Quiet(env.outcome.emitted)
    ensures LinksOf(Terminal(idx, link, env), kind) == (if kind != StartedSignal && Gets(env, kind) then [link] else [])
    ensures ProgressOf(Terminal(idx, link, env)) == []
  {
    var emitted := env.outcome.emitted;
    OnlyLogLines(emitted, kind);
    match env.outcome
    case Returned(name, size, _, _) =>
      var open := [FileInfo(name, size), Log(StartingFile(name, size))];
      OnlyLogLines(open, kind);
      if env.stopDuring {
        assert Terminal(idx, link, env) == open + emitted + [];
        ThreeParts(open, emitted, [], kind);
      } else {
        var close := [Log(FinishedFile(name)), LinkCompleted(link)];
        assert Terminal(idx, link, env) == open + emitted + close;
        ThreeParts(open, emitted, close, kind);
        ClosingSignals(close[0], close[1], kind);
      }
    case Raised(reason, _, _) =>
      var close := [Log(LinkError(idx + 1, reason)), LinkFailed(link)];
      assert Terminal(idx, link, env) == [] + emitted + close;
      ThreeParts([], emitted, close, kind);
      ClosingSignals(close[0], close[1], kind);
  }

  /** A log line followed by a completed or failed signal. */
  lemma ClosingSignals(a: Event, b: Event, kind: LinkSignal)
    requires a.Log? && (b.LinkCompleted? || b.LinkFailed?)
    ensures LinksOf([a, b], kind) == (if IsSignal(b, kind) then [b.link] else [])
    ensures ProgressOf([a, b]) == []
  {
    Pair(a, b, kind);
    OnlyLogLines([a], kind);
    Single(b, kind);
  }

  /** The signals of one taken link, projected: its link once for each kind
      of signal it gets, and overall progress when the flag is still on at
      its `finally` clause. */
  lemma LinkEventsProjection(idx: nat, total: nat, link: string, env: LinkEnv, kind: LinkSignal)
    requires Quiet(env.outcome.emitted)
    ensures LinksOf(LinkEvents(idx, total, link, env), kind) == (if Gets(env, kind) then [link] else [])
    ensures ProgressOf(LinkEvents(idx, total, link, env)) ==
      (if ActiveAfter(env) then [(idx + 1, total)] else [])
  {
    var head := [LinkStarted(link), Log(ProcessingLink(idx + 1, total))];
    var t := Terminal(idx, link, env);
    var tail := if ActiveAfter(env) then [OverallProgress(idx + 1, total)] else [];
    LinkEventsParts(idx, total, link, env, kind, head, t, tail);
    HeadProjection(link, idx + 1, total, kind);
    TerminalProjection(idx, link, env, kind);
    TailProjection(tail, idx + 1, total, kind);
    CombineLinks(LinksOf(LinkEvents(idx, total, link, env), kind), LinksOf(head, kind), LinksOf(t, kind), LinksOf(tail, kind),
                 link, env, kind);
    CombineProgress(ProgressOf(LinkEvents(idx, total, link, env)), ProgressOf(head), ProgressOf(t), ProgressOf(tail));
  }

  lemma CombineLinks(all: seq<string>, a: seq<string>, b: seq<string>, c: seq<string>, link: string, env: LinkEnv, kind: LinkSignal)
    requires all == a + b + c && c == []
    requires a == (if kind == StartedSignal then [link] else [])
    requires b == (if kind != StartedSignal && Gets(env, kind) then [link] else [])
    ensures all == (if Gets(env, kind) then [link] else [])
  {
    if kind == StartedSignal {
      assert all == [link] + [] + [];
    } else {
      assert all == [] + b + [];
    }
  }

  lemma CombineProgress(all: seq<(nat, nat)>, a: seq<(nat, nat)>, b: seq<(nat, nat)>, c: seq<(nat, nat)>)
    requires all == a + b + c && a == [] && b == []
    ensures all == c
  {
    assert all == [] + [] + c;
  }

  /** The signals of a taken link are its announcement, the signals of its
      processing, and the overall progress of its `finally` clause. */
  lemma LinkEventsParts(idx: nat, total: nat, link: string, env: LinkEnv, kind: LinkSignal,
                        head: seq<Event>, t: seq<Event>, tail: seq<Event>)
    requires head == [LinkStarted(link), Log(ProcessingLink(idx + 1, total))]
    requires t == Terminal(idx, link, env)
    requires tail == if ActiveAfter(env) then [OverallProgress(idx + 1, total)] else []
    ensures LinksOf(LinkEvents(idx, total, link, env), kind) == LinksOf(head, kind) + LinksOf(t, kind) + LinksOf(tail, kind)
    ensures ProgressOf(LinkEvents(idx, total, link, env)) == ProgressOf(head) + ProgressOf(t) + ProgressOf(tail)
  {
    assert LinkEvents(idx, total, link, env) == head + t + tail;
    ThreeParts(head, t, tail, kind);
  }

  /** The announcement of a link carries its started signal and no progress. */
  lemma HeadProjection(link: string, n: nat, total: nat, kind: LinkSignal)
    ensures LinksOf([LinkStarted(link), Log(ProcessingLink(n, total))], kind) == (if kind == StartedSignal then [link] else [])
    ensures ProgressOf([LinkStarted(link), Log(ProcessingLink(n, total))]) == []
  {
    Pair(LinkStarted(link), Log(ProcessingLink(n, total)), kind);
    Single(LinkStarted(link), kind);
    OnlyLogLines([Log(ProcessingLink(n, total))], kind);
  }

  /** The `finally` clause's progress signal, when it is emitted. */
  lemma TailProjection(tail: seq<Event>, n: nat, total: nat, kind: LinkSignal)
    requires tail == [] || tail == [OverallProgress(n, total)]
    ensures LinksOf(tail, kind) == []
    ensures ProgressOf(tail) == if tail == [] then [] else [(n, total)]
  {
    if tail == [] {
      OnlyLogLines(tail, kind);
    } else {
      Single(tail[0], kind);
    }
  }

  lemma ThreeParts(a: seq<Event>, b: seq<Event>, c: seq<Event>, kind: LinkSignal)
    ensures LinksOf(a + b + c, kind) == LinksOf(a, kind) + LinksOf(b, kind) + LinksOf(c, kind)
    ensures ProgressOf(a + b + c) == ProgressOf(a) + ProgressOf(b) + ProgressOf(c)
  {
    LinksOfAppend(a, b, kind);
    LinksOfAppend(a + b, c, kind);
    ProgressOfAppend(a, b);
    ProgressOfAppend(a + b, c);
  }

  /** The signals of one kind name exactly the taken links that get it, in
      input order. */
  lemma {:induction false} RunSignalsOfKind(links: seq<string>, envs: seq<LinkEnv>, i: nat, active: bool, kind: LinkSignal, hi: nat)
    requires |envs| == |links| && i <= |links| && QuietEnvs(envs)
    requires hi == i + Taken(links, envs, i, active)
    ensures hi <= |links|
    ensures LinksOf(RunFrom(links, envs, i, active).events, kind) == Selected(links, envs, i, hi, kind)
    decreases |links| - i
  {
    if i == |links| || !active || envs[i].stopBeforeCheck {
      StopSignals(links, envs, i, active, kind);
    } else {
      var a := ActiveAfter(envs[i]);
      assert Taken(links, envs, i, active) == 1 + Taken(links, envs, i + 1, a);
      RunSignalsOfKind(links, envs, i + 1, a, kind, hi);
      StepSignals(links, envs, i, kind, hi);
    }
  }

  /** One step of `RunSignalsOfKind`: a taken link puts its own signal in
      front of those of the rest of the loop. */
  lemma StepSignals(links: seq<string>, envs: seq<LinkEnv>, i: nat, kind: LinkSignal, hi: nat)
    requires |envs| == |links| && i < |links| && !envs[i].stopBeforeCheck
    requires Quiet(envs[i].outcome.emitted)
    requires i < hi <= |links|
    requires LinksOf(RunFrom(links, envs, i + 1, ActiveAfter(envs[i])).events, kind) == Selected(links, envs, i + 1, hi, kind)
    ensures LinksOf(RunFrom(links, envs, i, true).events, kind) == Selected(links, envs, i, hi, kind)
  {
    var ev := LinkEvents(i, |links|, links[i], envs[i]);
    var rest := RunFrom(links, envs, i + 1, ActiveAfter(envs[i])).events;
    LinkEventsProjection(i, |links|, links[i], envs[i], kind);
    LinksOfAppend(ev, rest, kind);
    assert RunFrom(links, envs, i, true).events == ev + rest;
  }

  lemma StopSignals(links: seq<string>, envs: seq<LinkEnv>, i: nat, active: bool, kind: LinkSignal)
    requires |envs| == |links| && i <= |links|
    requires i == |links| || !active || envs[i].stopBeforeCheck
    ensures Taken(links, envs, i, active) == 0
    ensures LinksOf(RunFrom(links, envs, i, active).events, kind) == [] == Selected(links, envs, i, i, kind)
  {
    OnlyLogLines(RunFrom(links, envs, i, active).events, kind);
  }

  /** The loop takes the links in input order: the started signals name
      exactly the first `Taken` links from `i`, in order; a failed signal
      goes exactly to the taken links whose processing raised, and a
      completed signal exactly to the taken links that returned with no stop
      during their processing. */
  lemma RunSignals(links: seq<string>, envs: seq<LinkEnv>, i: nat, active: bool)
    requires |envs| == |links| && i <= |links| && QuietEnvs(envs)
    ensures i + Taken(links, envs, i, active) <= |links|
    ensures LinksOf(RunFrom(links, envs, i, active).events, StartedSignal) ==
            links[i..i + Taken(links, envs, i, active)]
    ensures LinksOf(RunFrom(links, envs, i, active).events, FailedSignal) ==
            Selected(links, envs, i, i + Taken(links, envs, i, active), FailedSignal)
    ensures LinksOf(RunFrom(links, envs, i, active).events, CompletedSignal) ==
            Selected(links, envs, i, i + Taken(links, envs, i, active), CompletedSignal)
  {
    var hi := i + Taken(links, envs, i, active);
    StartedSignals(links, envs, i, active, hi);
    RunSignalsOfKind(links, envs, i, active, FailedSignal, hi);
    RunSignalsOfKind(links, envs, i, active, CompletedSignal, hi);
  }

  lemma StartedSignals(links: seq<string>, envs: seq<LinkEnv>, i: nat, active: bool, hi: nat)
    requires |envs| == |links| && i <= |links| && QuietEnvs(envs)
    requires hi == i + Taken(links, envs, i, active)
    ensures hi <= |links|
    ensures LinksOf(RunFrom(links, envs, i, active).events, StartedSignal) == links[i..hi]
  {
    RunSignalsOfKind(links, envs, i, active, StartedSignal, hi);
    AllStarted(links, envs, i, hi);
  }

  /** No `stop()` at any point of the session. */
  predicate NeverStopped(envs: seq<LinkEnv>) {
    forall j :: 0 <= j < |envs| ==>
      !envs[j].stopBeforeCheck && !envs[j].stopDuring && !envs[j].stopBeforeFinally
  }

  /** Overall progress `(k, total)` for every `k` from `from + 1` to `total`. */
  function Counts(from: nat, total: nat): seq<(nat, nat)>
    decreases total - from
  {
    if from >= total then [] else [(from + 1, total)] + Counts(from + 1, total)
  }

  /** A session nobody stops takes every link, keeps the flag on, and
      reports overall progress `(k, n)` once for each `k` from `i + 1` to `n`. */
  lemma {:induction false} UninterruptedRun(links: seq<string>, envs: seq<LinkEnv>, i: nat)
    requires |envs| == |links| && i <= |links| && NeverStopped(envs) && QuietEnvs(envs)
    ensures Taken(links, envs, i, true) == |links| - i
    ensures RunFrom(links, envs, i, true).active
    ensures ProgressOf(RunFrom(links, envs, i, true).events) == Counts(i, |links|)
    decreases |links| - i
  {
    if i == |links| {
      OnlyLogLines(RunFrom(links, envs, i, true).events, StartedSignal);
    } else {
      assert !envs[i].stopBeforeCheck && ActiveAfter(envs[i]) && Quiet(envs[i].outcome.emitted);
      UninterruptedRun(links, envs, i + 1);
      StepProgress(links, envs, i);
      assert Taken(links, envs, i, true) == 1 + (|links| - (i + 1));
    }
  }

  /** One step of `UninterruptedRun`: a link that keeps the flag on puts its
      overall progress in front of that of the rest of the loop. */
  lemma StepProgress(links: seq<string>, envs: seq<LinkEnv>, i: nat)
    requires |envs| == |links| && i < |links| && !envs[i].stopBeforeCheck && ActiveAfter(envs[i])
    requires Quiet(envs[i].outcome.emitted)
    requires ProgressOf(RunFrom(links, envs, i + 1, true).events) == Counts(i + 1, |links|)
    ensures ProgressOf(RunFrom(links, envs, i, true).events) == Counts(i, |links|)
    ensures Taken(links, envs, i, true) == 1 + Taken(links, envs, i + 1, true)
    ensures RunFrom(links, envs, i, true).active == RunFrom(links, envs, i + 1, true).active
  {
    var ev := LinkEvents(i, |links|, links[i], envs[i]);
    var rest := RunFrom(links, envs, i + 1, true).events;
    LinkEventsProjection(i, |links|, links[i], envs[i], StartedSignal);
    ProgressOfAppend(ev, rest);
    assert RunFrom(links, envs, i, true).events == ev + rest;
  }

  /** A whole session nobody stops: every link is started in input order and
      gets exactly one of completed or failed, and overall progress counts
      `(1, n)`, `(2, n)`, ..., `(n, n)`. */
  lemma UninterruptedSession(links: seq<string>, envs: seq<LinkEnv>)
    requires |envs| == |links| && NeverStopped(envs) && QuietEnvs(envs)
    ensures var evs := RunFrom(links, envs, 0, true).events;
      LinksOf(evs, StartedSignal) == links &&
      LinksOf(evs, FailedSignal) == Selected(links, envs, 0, |links|, FailedSignal) &&
      LinksOf(evs, CompletedSignal) == Selected(links, envs, 0, |links|, CompletedSignal) &&
      |LinksOf(evs, CompletedSignal)| + |LinksOf(evs, FailedSignal)| == |links| &&
      ProgressOf(evs) == Counts(0, |links|)
  {
    UninterruptedRun(links, envs, 0);
    RunSignals(links, envs, 0, true);
    assert links[0..|links|] == links;
    CompletedOrFailed(links, envs, 0, |links|);
  }

  /** Once the loop finds the flag off it takes no further link: the stop
      message and the end-of-session message are the last two signals. */
  lemma {:induction false} StopIsFinal(links: seq<string>, envs: seq<LinkEnv>, i: nat, active: bool)
    requires |envs| == |links| && i <= |links|
    requires i + Taken(links, envs, i, active) < |links|
    ensures var evs := RunFrom(links, envs, i, active).events;
      |evs| >= 2 && evs[|evs| - 2] == Log(StoppedByUser) && evs[|evs| - 1] == Log(SessionFinished)
    ensures !RunFrom(links, envs, i, active).active
    decreases |links| - i
  {
    if !(i == |links| || !active || envs[i].stopBeforeCheck) {
      var step := LinkEvents(i, |links|, links[i], envs[i]);
      assert Taken(links, envs, i, active) == 1 + Taken(links, envs, i + 1, ActiveAfter(envs[i]));
      StopIsFinal(links, envs, i + 1, ActiveAfter(envs[i]));
      var rest := RunFrom(links, envs, i + 1, ActiveAfter(envs[i]));
      RunFromTaking(links, envs, i, step, rest);
      LastTwo(step, rest.events);
    }
  }

  lemma LastTwo(a: seq<Event>, b: seq<Event>)
    requires |b| >= 2
    ensures (a + b)[|a + b| - 2] == b[|b| - 2] && (a + b)[|a + b| - 1] == b[|b| - 1]
  {
  }

  /** The session of three links whose second raises, with no stop: the
      first and third complete, the second fails, and overall progress
      reaches `(3, 3)`. */
  lemma ThreeLinksMiddleFails(l0: string, l1: string, l2: string, n0: string, n2: string, why: string)
    ensures var envs := [LinkEnv(false, Returned(n0, 0, [], None), false, false), LinkEnv(false, Raised(why, [], None), false, false),
                         LinkEnv(false, Returned(n2, 0, [], None), false, false)];
      var evs := RunFrom([l0, l1, l2], envs, 0, true).events;
      LinksOf(evs, StartedSignal) == [l0, l1, l2] &&
      LinksOf(evs, FailedSignal) == [l1] &&
      LinksOf(evs, CompletedSignal) == [l0, l2] &&
      ProgressOf(evs) == [(1, 3), (2, 3), (3, 3)]
  {
    var links := [l0, l1, l2];
    var envs := [LinkEnv(false, Returned(n0, 0, [], None), false, false), LinkEnv(false, Raised(why, [], None), false, false),
                 LinkEnv(false, Returned(n2, 0, [], None), false, false)];
    assert NeverStopped(envs) && QuietEnvs(envs);
    UninterruptedSession(links, envs);
    ThreeSelected(links, envs);
    CountsToThree();
  }

  lemma ThreeSelected(links: seq<string>, envs: seq<LinkEnv>)
    requires |links| == |envs| == 3 && !envs[0].stopDuring && !envs[2].stopDuring
    requires envs[0].outcome.Returned? && envs[1].outcome.Raised? && envs[2].outcome.Returned?
    ensures Selected(links, envs, 0, |links|, FailedSignal) == [links[1]]
    ensures Selected(links, envs, 0, |links|, CompletedSignal) == [links[0], links[2]]
  {
    assert Selected(links, envs, 2, 3, FailedSignal) == [];
    assert Selected(links, envs, 1, 3, FailedSignal) == [links[1]];
    assert Selected(links, envs, 2, 3, CompletedSignal) == [links[2]];
    assert Selected(links, envs, 1, 3, CompletedSignal) == [links[2]];
  }

  lemma CountsToThree()
    ensures Counts(0, 3) == [(1, 3), (2, 3), (3, 3)]
  {
    assert Counts(3, 3) == [];
    assert Counts(2, 3) == [(3, 3)];
    assert Counts(1, 3) == [(2, 3), (3, 3)];
  }
}
