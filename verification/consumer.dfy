/** The consumer loop over an arbitrary reader, handler and context. */
module Consumer {
  import opened Prelude
  import opened Backoff
  import opened ConsumerProtocol

  datatype Stop =
    | StillRunning  // the observation ended before the loop did
    | HandlerMissing
    | ReaderMissing
    | ContextDone
    | Cancelled
    | FetchFailure
    | HandlerFailure(m: Message, attempts: nat)
    | CommitFailure(m: Message, attempts: nat)

  const DEFAULT_RETRY_BACKOFF: int := 100 * MILLISECOND
  const DEFAULT_RETRY_BACKOFF_MAX: int := 3 * SECOND
  const DEFAULT_COMMIT_BACKOFF: int := 100 * MILLISECOND

  /** Retry settings the loop can run on. */
  predicate Sane(c: Config) {
    && c.maxProcessingRetries >= 0
    && 0 < c.retryBackoff <= c.retryBackoffMax
    && c.commitRetries >= 0
    && c.commitRetryBackoff > 0
  }

  method NormalizeConfig(cfg: Config) returns (c: Config)
    ensures Sane(c)
    ensures Sane(cfg) ==> c == cfg
    ensures cfg.maxProcessingRetries >= 0 ==> c.maxProcessingRetries == cfg.maxProcessingRetries
    ensures cfg.commitRetries >= 0 ==> c.commitRetries == cfg.commitRetries
    ensures c.retryBackoffMax == if cfg.retryBackoffMax > 0 then cfg.retryBackoffMax else 3_000_000_000
    ensures c.retryBackoff
         == Min(if cfg.retryBackoff > 0 then cfg.retryBackoff else 100_000_000, c.retryBackoffMax)
    ensures cfg.maxProcessingRetries < 0 ==> c.maxProcessingRetries == 0
    ensures cfg.commitRetries < 0 ==> c.commitRetries == 0
    ensures c.commitRetryBackoff
         == if cfg.commitRetryBackoff > 0 then cfg.commitRetryBackoff else 100_000_000
  {
    c := cfg;
    if c.maxProcessingRetries < 0 {
      c := c.(maxProcessingRetries := 0);
    }
    if c.retryBackoff <= 0 {
      c := c.(retryBackoff := DEFAULT_RETRY_BACKOFF);
    }
    if c.retryBackoffMax <= 0 {
      c := c.(retryBackoffMax := DEFAULT_RETRY_BACKOFF_MAX);
    }
    if c.retryBackoff > c.retryBackoffMax {
      c := c.(retryBackoff := c.retryBackoffMax);
    }
    if c.commitRetries < 0 {
      c := c.(commitRetries := 0);
    }
    if c.commitRetryBackoff <= 0 {
      c := c.(commitRetryBackoff := DEFAULT_COMMIT_BACKOFF);
    }
  }

  class Consumer {
    const cfg: Config
    const enabled: bool
    const hasReader: bool

    ghost var trace: seq<Action>  // everything done so far

    ghost predicate Valid() { cfg.maxProcessingRetries >= 0 && cfg.commitRetries >= 0 }

    constructor (cfg: Config, enabled: bool, hasReader: bool)
      ensures Valid() && Sane(this.cfg) && trace == []
      ensures this.enabled == enabled && this.hasReader == hasReader
    {
      var c := NormalizeConfig(cfg);
      this.cfg, this.enabled, this.hasReader := c, enabled, hasReader;
      trace := [];
    }

    ghost function At(): Phase
      reads this
    {
      PhaseAfter(cfg, trace)
    }

    ghost method Did(a: Action)
      modifies `trace
      ensures trace == old(trace) + [a]
      ensures At() == Next(cfg, old(At()), a)
      ensures FetchCalls(trace) == FetchCalls(old(trace)) + if a.Fetched? || a.FetchRetried? then 1 else 0
    {
      PhaseAppend(cfg, trace, a);
      trace := trace + [a];
    }

    // ----- the outside: any answer is possible, and the trace tells which one came

    method FetchMessage() returns (a: Action)
      modifies this
      ensures a.Fetched? || a.FetchRetried? || a.FetchFailed?
      ensures trace == old(trace) + [a] && At() == Next(cfg, old(At()), a)
      ensures FetchCalls(trace) == FetchCalls(old(trace)) + if a.FetchFailed? then 0 else 1
    {
      a := *;
      if !(a.Fetched? || a.FetchRetried? || a.FetchFailed?) {
        a := FetchRetried;
      }
      Did(a);
    }

    method CallHandler(m: Message) returns (ok: bool)
      modifies this
      ensures trace == old(trace) + [Handled(m, ok)] && At() == Next(cfg, old(At()), Handled(m, ok))
      ensures FetchCalls(trace) == FetchCalls(old(trace))
    {
      ok := *;
      Did(Handled(m, ok));
    }

    method CommitMessage(m: Message) returns (ok: bool, cause: Cause)
      modifies this
      ensures trace == old(trace) + [Committed(m, ok, cause)] && At() == Next(cfg, old(At()), Committed(m, ok, cause))
      ensures FetchCalls(trace) == FetchCalls(old(trace))
    {
      ok, cause := *, *;
      Did(Committed(m, ok, cause));
    }

    /** Calls the handler until it succeeds or the retries are used up; the context does not cut this short. */
    method HandleWithRetry(m: Message) returns (stop: Stop)
      requires Valid() && At() == Handling(m, 0)
      modifies this
      ensures old(trace) <= trace && FetchCalls(trace) == FetchCalls(old(trace))
      ensures stop == StillRunning ==> At() == Committing(m, 0)
      ensures stop != StillRunning ==> stop.HandlerFailure? && Interrupted(m, stop, At())
      ensures stop != StillRunning ==>
        && stop == HandlerFailure(m, cfg.maxProcessingRetries + 1)
        && At() == HandleBackoff(m, cfg.maxProcessingRetries + 1)
    {
      hide BackoffOf, PhaseAfter, FetchCalls;
      var attempt := 0;
      while true
        invariant 0 <= attempt <= cfg.maxProcessingRetries
        invariant At() == Handling(m, attempt)
        invariant old(trace) <= trace && FetchCalls(trace) == FetchCalls(old(trace))
        decreases cfg.maxProcessingRetries - attempt
      {
        var ok := CallHandler(m);
        if ok {
          return StillRunning;
        }
        if attempt >= cfg.maxProcessingRetries {
          return HandlerFailure(m, attempt + 1);
        }
        var delay := ComputeBackoff(attempt, cfg.retryBackoff, cfg.retryBackoffMax);
        Did(Slept(delay));
        attempt := attempt + 1;
      }
    }

    /** Commits until it succeeds, the context ends or the retries are used up. */
    method CommitWithRetry(m: Message) returns (stop: Stop)
      requires Valid() && At() == Committing(m, 0)
      modifies this
      ensures old(trace) <= trace && FetchCalls(trace) == FetchCalls(old(trace))
      ensures stop == StillRunning ==> At() == Idle
      ensures stop != StillRunning ==> !stop.HandlerFailure? && Interrupted(m, stop, At())
      ensures stop.CommitFailure? ==>
        && stop == CommitFailure(m, cfg.commitRetries + 1)
        && At() == CommitBackoff(m, cfg.commitRetries + 1)
    {
      hide BackoffOf, PhaseAfter, FetchCalls;
      var attempt := 0;
      while true
        invariant 0 <= attempt <= cfg.commitRetries
        invariant At() == Committing(m, attempt)
        invariant old(trace) <= trace && FetchCalls(trace) == FetchCalls(old(trace))
        decreases cfg.commitRetries - attempt
      {
        var ok, cause := CommitMessage(m);
        if ok {
          return StillRunning;
        }
        if cause == ContextOver {
          return ContextDone;
        }
        if cause == CallCancelled {
          return Cancelled;
        }
        if attempt >= cfg.commitRetries {
          return CommitFailure(m, attempt + 1);
        }
        Did(Slept(cfg.commitRetryBackoff));
        attempt := attempt + 1;
      }
    }

    /** How a run that was cut short by the consumer itself leaves the protocol. */
    ghost predicate Stopped(stop: Stop, p: Phase)
      requires Valid()
    {
      match stop
      case FetchFailure => p == FetchStopped(OtherFailure)
      case HandlerFailure(m, _) => Interrupted(m, stop, p)
      case CommitFailure(m, _) => Interrupted(m, stop, p)
      case ContextDone => p == FetchStopped(ContextOver) || (p.CommitStopped? && p.cause == ContextOver)
      case Cancelled => p == FetchStopped(CallCancelled) || (p.CommitStopped? && p.cause == CallCancelled)
      case _ => false
    }

    /** One turn of the loop: a fetch and what follows from it. */
    method Turn() returns (stop: Stop)
      requires Valid() && At() == Idle
      modifies this
      ensures old(trace) <= trace
      ensures stop == StillRunning ==> At() == Idle && FetchCalls(trace) == FetchCalls(old(trace)) + 1
      ensures stop != StillRunning ==> Stopped(stop, At())
    {
      hide PhaseAfter, FetchCalls;
      var fetched := FetchMessage();
      match fetched {
        case FetchRetried =>
          return StillRunning;
        case FetchFailed(cause) =>
          return if cause == ContextOver then ContextDone
                 else if cause == CallCancelled then Cancelled else FetchFailure;
        case Fetched(m) =>
          stop := Deliver(m);
      }
    }

    /** The loop, observed for at most `fetches` turns: any finite run of it is one of these. */
    method Run(hasHandler: bool, fetches: nat) returns (stop: Stop)
      requires Valid() && At() == Idle
      modifies this
      ensures Follows(cfg, trace) && old(trace) <= trace
      ensures !hasHandler ==> stop == HandlerMissing && trace == old(trace)
      ensures hasHandler && !enabled ==> stop == ContextDone && trace == old(trace)
      ensures hasHandler && enabled && !hasReader ==> stop == ReaderMissing && trace == old(trace)
      ensures hasHandler && enabled && hasReader ==>
        if stop == StillRunning then At() == Idle && FetchCalls(trace) == FetchCalls(old(trace)) + fetches
        else Stopped(stop, At()) && Explains(stop, trace)
    {
      hide PhaseAfter, FetchCalls, Interrupted, Explains;
      if !hasHandler {
        return HandlerMissing;
      }
      if !enabled {
        return ContextDone;
      }
      if !hasReader {
        return ReaderMissing;
      }
      for n := 0 to fetches
        invariant At() == Idle && old(trace) <= trace && FetchCalls(trace) == FetchCalls(old(trace)) + n
      {
        stop := Turn();
        if stop != StillRunning {
          StoppedFollows(stop);
          StopExplained(stop);
          return stop;
        }
      }
      return StillRunning;
    }

    /** How a trace ends that the consumer itself cut short. */
    ghost predicate Explains(stop: Stop, trace: seq<Action>) {
      && trace != []
      && var last := trace[|trace| - 1];
         match stop
         case FetchFailure => last == FetchFailed(OtherFailure)
         case HandlerFailure(m, attempts) =>
           last == Handled(m, false) && attempts == FailedCalls(trace) == cfg.maxProcessingRetries + 1
         case CommitFailure(m, attempts) =>
           last == Committed(m, false, OtherFailure) && attempts == FailedCommits(trace) == cfg.commitRetries + 1
         case ContextDone =>
           last == FetchFailed(ContextOver) || (last.Committed? && !last.ok && last.cause == ContextOver)
         case Cancelled =>
           last == FetchFailed(CallCancelled) || (last.Committed? && !last.ok && last.cause == CallCancelled)
         case _ => false
    }

    lemma {:induction false} StopExplained(stop: Stop)
      requires Valid() && Follows(cfg, trace) && Stopped(stop, At())
      ensures Explains(stop, trace)
    {
      hide PhaseAfter, FailedCalls, FailedCommits;
      PhaseRecorded(cfg, trace);
    }

    lemma {:induction false} StoppedFollows(stop: Stop)
      requires Valid() && Stopped(stop, At())
      ensures Follows(cfg, trace)
    {
      hide PhaseAfter;
    }

    /** One message, from the handler to the commit. */
    method Deliver(m: Message) returns (stop: Stop)
      requires Valid() && At() == Handling(m, 0)
      modifies this
      ensures old(trace) <= trace && FetchCalls(trace) == FetchCalls(old(trace))
      ensures stop == StillRunning ==> At() == Idle
      ensures stop != StillRunning ==> Interrupted(m, stop, At())
    {
      hide PhaseAfter, FetchCalls;
      stop := HandleWithRetry(m);
      if stop == StillRunning {
        stop := CommitWithRetry(m);
      }
    }

    /** Where the protocol stands when a message is given up on. */
    ghost predicate Interrupted(m: Message, stop: Stop, p: Phase)
      requires Valid()
    {
      || (stop == HandlerFailure(m, cfg.maxProcessingRetries + 1)
          && p == HandleBackoff(m, cfg.maxProcessingRetries + 1))
      || (stop == CommitFailure(m, cfg.commitRetries + 1) && p == CommitBackoff(m, cfg.commitRetries + 1))
      || (p.CommitStopped? && p.m == m
          && ((stop == ContextDone && p.cause == ContextOver) || (stop == Cancelled && p.cause == CallCancelled)))
    }
  }

  /** However a run ends, every fetched message except possibly the last is committed, in fetch order. */
  lemma {:induction false} StoppedRunsCommitAllButLast(c: Config, trace: seq<Action>)
    requires Follows(c, trace)
    ensures var fetched, committed := Fetches(trace), CommittedOk(trace);
      committed == fetched || (fetched != [] && committed == fetched[..|fetched| - 1])
  {
    hide Next;
    PhaseAccounts(c, trace);
  }
}
