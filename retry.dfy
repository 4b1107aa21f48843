/** The bounded retry of one chunk in `download_chunk`: up to three
    attempts, each preceded by a look at the `active` flag. */
module ChunkRetry {
  import opened Wrappers
  import opened OutputFile

  const MaxAttempts: nat := 3

  /** What one ranged GET yields: the response body, or any failure
      (connection error, timeout, an error status, a failed write). */
  datatype Fetch = Body(content: seq<byte>) | Failed

  /** What the environment does at one attempt boundary: whether `stop()` was
      called since the previous look at the flag, and what the fetch would
      return if it is issued. */
  datatype Attempt = Attempt(stopBefore: bool, fetch: Fetch)

  /** How the attempts of one chunk end. */
  datatype ChunkRun =
    | Written(content: seq<byte>, fetches: nat)   // attempt `fetches` succeeded
    | Stopped(fetches: nat)                       // `active` was false before attempt `fetches + 1`
    | Exhausted                                   // three fetches, all failed

  /** The attempts of one chunk from attempt index `i` on, with `active` the
      flag as last seen. */
  function RunAttempts(active: bool, env: seq<Attempt>, i: nat): (r: ChunkRun)
    requires |env| == MaxAttempts && i <= MaxAttempts
    ensures r.Written? ==> i < r.fetches <= MaxAttempts
    ensures r.Stopped? ==> i <= r.fetches < MaxAttempts
    decreases MaxAttempts - i
  {
    if i == MaxAttempts then Exhausted
    else if !active || env[i].stopBefore then Stopped(i)
    else match env[i].fetch
      case Body(c) => Written(c, i + 1)
      case Failed => RunAttempts(true, env, i + 1)
  }

  /** What `download_chunk` returns: the body's length, or `None`. */
  function ChunkResult(run: ChunkRun): Option<nat> {
    if run.Written? then Some(|run.content|) else None
  }

  /** How many GET requests the chunk issued. */
  function FetchCount(run: ChunkRun): nat {
    match run
    case Written(_, n) => n
    case Stopped(n) => n
    case Exhausted => MaxAttempts
  }

  /** Attempts `0 .. n-1` all went ahead (no stop) and all failed. */
  ghost predicate FailedThrough(env: seq<Attempt>, n: nat)
    requires n <= |env|
  {
    forall k :: 0 <= k < n ==> !env[k].stopBefore && env[k].fetch.Failed?
  }

  /** Attempt `n` (counting from 1) is the first to succeed: every earlier
      attempt went ahead and failed, and this one went ahead and got a body. */
  ghost predicate SucceedsAt(env: seq<Attempt>, n: nat)
    requires |env| == MaxAttempts
  {
    1 <= n <= MaxAttempts && FailedThrough(env, n - 1) &&
    !env[n - 1].stopBefore && env[n - 1].fetch.Body?
  }

  /** The result of the attempts, characterised case by case:
      a body is written iff every earlier attempt went ahead and failed and
      this one went ahead and got that body; the chunk stops before attempt
      `n + 1` iff the flag is off there after `n` failures; and it gives up iff
      all three attempts went ahead and failed. */
  lemma {:induction false} RunAttemptsCases(active: bool, env: seq<Attempt>, i: nat)
    requires |env| == MaxAttempts && i <= MaxAttempts
    requires active ==> FailedThrough(env, i)
    requires !active ==> i < MaxAttempts
    ensures var run := RunAttempts(active, env, i);
      (run.Written? <==> active && exists n :: i < n && SucceedsAt(env, n)) &&
      (run.Written? ==> i < run.fetches && SucceedsAt(env, run.fetches) &&
                        env[run.fetches - 1].fetch == Body(run.content)) &&
      (run.Stopped? ==> i <= run.fetches < MaxAttempts &&
                        (!active || (FailedThrough(env, run.fetches) && env[run.fetches].stopBefore))) &&
      (run == Exhausted <==> active && FailedThrough(env, MaxAttempts))
    decreases MaxAttempts - i
  {
    var run := RunAttempts(active, env, i);
    if i < MaxAttempts && active && !env[i].stopBefore && env[i].fetch.Failed? {
      RunAttemptsCases(true, env, i + 1);
      if run.Written? {
        assert SucceedsAt(env, run.fetches);
      }
    } else if i < MaxAttempts && active && !env[i].stopBefore {
      assert SucceedsAt(env, i + 1);
    } else if i < MaxAttempts {
      assert FailedThrough(env, MaxAttempts) ==> !env[i].stopBefore;
    }
  }

  /** At most three GET requests are issued for a chunk, and exactly three
      when it gives up. */
  lemma RetryCap(active: bool, env: seq<Attempt>)
    requires |env| == MaxAttempts
    ensures FetchCount(RunAttempts(active, env, 0)) <= 3
    ensures RunAttempts(active, env, 0) == Exhausted ==> FetchCount(RunAttempts(active, env, 0)) == 3
    ensures RunAttempts(active, env, 0) == Exhausted <==> active && FailedThrough(env, 3)
    ensures ChunkResult(RunAttempts(active, env, 0)).None? <==> !RunAttempts(active, env, 0).Written?
  {
    RunAttemptsCases(active, env, 0);
  }

  /** The first successful attempt decides the result: if attempt `n` gets a
      body after `n - 1` failures, the chunk returns that body's length after
      exactly `n` fetches. */
  lemma FirstSuccessWins(env: seq<Attempt>, n: nat)
    requires |env| == MaxAttempts && 1 <= n <= MaxAttempts
    requires SucceedsAt(env, n)
    ensures RunAttempts(true, env, 0) == Written(env[n - 1].fetch.content, n)
    ensures ChunkResult(RunAttempts(true, env, 0)) == Some(|env[n - 1].fetch.content|)
  {
    RunAttemptsCases(true, env, 0);
    assert RunAttempts(true, env, 0).fetches == n;
  }

  /** A chunk whose flag is already off issues no request at all. */
  lemma InactiveIssuesNothing(env: seq<Attempt>)
    requires |env| == MaxAttempts
    ensures RunAttempts(false, env, 0) == Stopped(0)
  {
  }
}
