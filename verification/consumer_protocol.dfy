/** The consumer's fetch, handle, commit protocol as an automaton over what it does. */
module ConsumerProtocol {
  import opened Backoff

  datatype Message = Message(partition: int, offset: int, value: seq<bv8>)

  datatype Config = Config(
    maxProcessingRetries: int,
    retryBackoff: int,
    retryBackoffMax: int,
    commitRetries: int,
    commitRetryBackoff: int)

  /** Why a call to the broker failed, in the order in which the loop asks. */
  datatype Cause = ContextOver | CallCancelled | OtherFailure

  /** A call to the outside and what came back; FetchRetried is a fetch that met a rebalance. */
  datatype Action =
    | Fetched(m: Message)
    | FetchRetried
    | FetchFailed(cause: Cause)
    | Handled(m: Message, ok: bool)
    | Committed(m: Message, ok: bool, cause: Cause)
    | Slept(delay: int)

  /** Where the protocol stands: which message is in hand and how many of its attempts have failed. */
  datatype Phase =
    | Idle
    | Handling(m: Message, failures: nat)
    | HandleBackoff(m: Message, failures: nat)
    | Committing(m: Message, failures: nat)
    | CommitBackoff(m: Message, failures: nat)
    | CommitStopped(m: Message, failures: nat, cause: Cause)
    | FetchStopped(cause: Cause)
    | Broken

  /** The next phase; Broken if the protocol does not allow the action. */
  function Next(c: Config, p: Phase, a: Action): Phase {
    match (p, a)
    case (Idle, Fetched(m)) => Handling(m, 0)
    case (Idle, FetchRetried) => Idle
    case (Idle, FetchFailed(cause)) => FetchStopped(cause)
    case (Handling(m, f), Handled(m', ok)) =>
      if m' != m || f > c.maxProcessingRetries then Broken
      else if ok then Committing(m, 0)
      else HandleBackoff(m, f + 1)
    case (HandleBackoff(m, f), Slept(delay)) =>
      if f > c.maxProcessingRetries || delay != BackoffOf(f - 1, c.retryBackoff, c.retryBackoffMax) then Broken
      else Handling(m, f)
    case (Committing(m, f), Committed(m', ok, cause)) =>
      if m' != m || f > c.commitRetries then Broken
      else if ok then Idle
      else if cause == OtherFailure then CommitBackoff(m, f + 1)
      else CommitStopped(m, f + 1, cause)
    case (CommitBackoff(m, f), Slept(delay)) =>
      if f > c.commitRetries || delay != c.commitRetryBackoff then Broken else Committing(m, f)
    case _ => Broken
  }

  function PhaseAfter(c: Config, trace: seq<Action>): Phase {
    if trace == [] then Idle
    else Next(c, PhaseAfter(c, trace[..|trace| - 1]), trace[|trace| - 1])
  }

  /** Every action was allowed where it was taken. */
  predicate Follows(c: Config, trace: seq<Action>) { PhaseAfter(c, trace) != Broken }

  // ----- what can be read off a trace

  function Fetches(trace: seq<Action>): seq<Message> {
    if trace == [] then []
    else
      var a := trace[|trace| - 1];
      Fetches(trace[..|trace| - 1]) + if a.Fetched? then [a.m] else []
  }

  function HandledOk(trace: seq<Action>): seq<Message> {
    if trace == [] then []
    else
      var a := trace[|trace| - 1];
      HandledOk(trace[..|trace| - 1]) + if a.Handled? && a.ok then [a.m] else []
  }

  function CommittedOk(trace: seq<Action>): seq<Message> {
    if trace == [] then []
    else
      var a := trace[|trace| - 1];
      CommittedOk(trace[..|trace| - 1]) + if a.Committed? && a.ok then [a.m] else []
  }

  /** Fetches that returned a message or a rebalance. */
  function FetchCalls(trace: seq<Action>): nat {
    if trace == [] then 0
    else
      var a := trace[|trace| - 1];
      FetchCalls(trace[..|trace| - 1]) + if a.Fetched? || a.FetchRetried? then 1 else 0
  }

  function HandlerCalls(trace: seq<Action>): nat {
    if trace == [] then 0
    else HandlerCalls(trace[..|trace| - 1]) + if trace[|trace| - 1].Handled? then 1 else 0
  }

  function CommitCalls(trace: seq<Action>): nat {
    if trace == [] then 0
    else CommitCalls(trace[..|trace| - 1]) + if trace[|trace| - 1].Committed? then 1 else 0
  }

  lemma {:induction false} PhaseAppend(c: Config, trace: seq<Action>, a: Action)
    ensures PhaseAfter(c, trace + [a]) == Next(c, PhaseAfter(c, trace), a)
    ensures FetchCalls(trace + [a]) == FetchCalls(trace) + if a.Fetched? || a.FetchRetried? then 1 else 0
  {
    assert (trace + [a])[..|trace|] == trace;
  }

  /** A message in hand has been fetched but not committed; it is committed only once handled. */
  ghost predicate Accounts(p: Phase, trace: seq<Action>) {
    match p
    case Handling(m, _) => Fetches(trace) == CommittedOk(trace) + [m] && HandledOk(trace) == CommittedOk(trace)
    case HandleBackoff(m, _) => Fetches(trace) == CommittedOk(trace) + [m] && HandledOk(trace) == CommittedOk(trace)
    case Committing(m, _) => Fetches(trace) == HandledOk(trace) == CommittedOk(trace) + [m]
    case CommitBackoff(m, _) => Fetches(trace) == HandledOk(trace) == CommittedOk(trace) + [m]
    case CommitStopped(m, _, _) => Fetches(trace) == HandledOk(trace) == CommittedOk(trace) + [m]
    case _ => Fetches(trace) == HandledOk(trace) == CommittedOk(trace)
  }

  lemma {:induction false} PhaseAccounts(c: Config, trace: seq<Action>)
    requires Follows(c, trace)
    ensures Accounts(PhaseAfter(c, trace), trace)
  {
    hide BackoffOf;
    if trace != [] {
      PhaseAccounts(c, trace[..|trace| - 1]);
    }
  }

  lemma {:induction false} PrefixFollows(c: Config, trace: seq<Action>, n: nat)
    requires Follows(c, trace) && n <= |trace|
    ensures Follows(c, trace[..n])
    decreases |trace| - n
  {
    hide BackoffOf;
    if n == |trace| {
      assert trace[..n] == trace;
    } else {
      PrefixFollows(c, trace, n + 1);
      assert trace[..n + 1][..n] == trace[..n];
    }
  }

  /**
   At least once, in order, at every moment of a run: commits are a prefix of the successfully handled
   messages, these of the fetched ones, and at most the last fetched message is not yet committed.
   */
  lemma {:induction false} AtLeastOnce(c: Config, trace: seq<Action>, n: nat)
    requires Follows(c, trace) && n <= |trace|
    ensures var past := trace[..n];
      && CommittedOk(past) <= HandledOk(past) <= Fetches(past)
      && |Fetches(past)| <= |CommittedOk(past)| + 1
  {
    hide Next;
    PrefixFollows(c, trace, n);
    PhaseAccounts(c, trace[..n]);
  }

  /** Each commit call is for the newest fetched message, which by then has been handled successfully. */
  lemma {:induction false} CommitFollowsSuccess(c: Config, trace: seq<Action>, n: nat)
    requires Follows(c, trace) && n < |trace| && trace[n].Committed?
    ensures var past := trace[..n];
      && Fetches(past) == HandledOk(past) == CommittedOk(past) + [trace[n].m]
  {
    hide BackoffOf;
    PrefixFollows(c, trace, n);
    PrefixFollows(c, trace, n + 1);
    assert trace[..n + 1] == trace[..n] + [trace[n]];
    PhaseAppend(c, trace[..n], trace[n]);
    PhaseAccounts(c, trace[..n]);
  }

  /** How many attempts the message in hand has used up. */
  function Failures(p: Phase): (int, int) {
    match p
    case Handling(_, f) => (f, 0)
    case HandleBackoff(_, f) => (f, 0)
    case Committing(_, f) => (0, f)
    case CommitBackoff(_, f) => (0, f)
    case CommitStopped(_, f, _) => (0, f)
    case _ => (0, 0)
  }

  /** At most R + 1 handler calls per fetched message and C + 1 commit calls per handled one. */
  lemma {:induction false} AttemptsBounded(c: Config, trace: seq<Action>)
    requires Follows(c, trace) && c.maxProcessingRetries >= 0 && c.commitRetries >= 0
    ensures HandlerCalls(trace) <= (c.maxProcessingRetries + 1) * |Fetches(trace)|
    ensures CommitCalls(trace) <= (c.commitRetries + 1) * |HandledOk(trace)|
    ensures var (h, k) := Failures(PhaseAfter(c, trace));
      && (h > 0 || PhaseAfter(c, trace).Handling?
          ==> HandlerCalls(trace) <= (c.maxProcessingRetries + 1) * (|Fetches(trace)| - 1) + h)
      && (k > 0 || PhaseAfter(c, trace).Committing?
          ==> CommitCalls(trace) <= (c.commitRetries + 1) * (|HandledOk(trace)| - 1) + k)
      && h <= c.maxProcessingRetries + 1 && k <= c.commitRetries + 1
  {
    hide BackoffOf;
    if trace != [] {
      var n := |trace| - 1;
      var before := trace[..n];
      AttemptsBounded(c, before);
      PhaseAccounts(c, before);
      PhaseAccounts(c, trace);
      OneMore(c.maxProcessingRetries + 1, |Fetches(before)|);
      OneMore(c.commitRetries + 1, |HandledOk(before)|);
      OneMore(c.maxProcessingRetries + 1, |Fetches(before)| - 1);
      OneMore(c.commitRetries + 1, |HandledOk(before)| - 1);
    }
  }

  lemma {:induction false} OneMore(a: int, n: int)
    ensures a * (n + 1) == a * n + a
  {
  }

  // ----- what follows what

  /** The failed handler calls since the last fetch. */
  function FailedCalls(trace: seq<Action>): nat {
    if trace == [] || trace[|trace| - 1].Fetched? then 0
    else
      var a := trace[|trace| - 1];
      FailedCalls(trace[..|trace| - 1]) + if a.Handled? && !a.ok then 1 else 0
  }

  /** The failed commits since the last fetch. */
  function FailedCommits(trace: seq<Action>): nat {
    if trace == [] || trace[|trace| - 1].Fetched? then 0
    else
      var a := trace[|trace| - 1];
      FailedCommits(trace[..|trace| - 1]) + if a.Committed? && !a.ok then 1 else 0
  }

  /** A phase's failures are those on the trace, and the phase tells what the last action was. */
  ghost predicate Recorded(p: Phase, trace: seq<Action>) {
    match p
    case Idle =>
      trace == [] || trace[|trace| - 1].FetchRetried? || (trace[|trace| - 1].Committed? && trace[|trace| - 1].ok)
    case Handling(m, f) => FailedCalls(trace) == f && FailedCommits(trace) == 0
    case HandleBackoff(m, f) =>
      FailedCalls(trace) == f > 0 && FailedCommits(trace) == 0 && trace != [] && trace[|trace| - 1] == Handled(m, false)
    case Committing(m, f) => FailedCommits(trace) == f
    case CommitBackoff(m, f) =>
      FailedCommits(trace) == f > 0 && trace != [] && trace[|trace| - 1] == Committed(m, false, OtherFailure)
    case CommitStopped(m, f, cause) => trace != [] && trace[|trace| - 1] == Committed(m, false, cause)
    case FetchStopped(cause) => trace != [] && trace[|trace| - 1] == FetchFailed(cause)
    case Broken => true
  }

  lemma {:induction false} PhaseRecorded(c: Config, trace: seq<Action>)
    requires Follows(c, trace)
    ensures Recorded(PhaseAfter(c, trace), trace)
  {
    hide BackoffOf;
    if trace != [] {
      PhaseRecorded(c, trace[..|trace| - 1]);
    }
  }

  lemma {:induction false} StepAt(c: Config, trace: seq<Action>, n: nat) returns (p: Phase, q: Phase)
    requires Follows(c, trace) && n + 1 < |trace|
    ensures p == PhaseAfter(c, trace[..n]) != Broken
    ensures q == PhaseAfter(c, trace[..n + 1]) == Next(c, p, trace[n]) != Broken
    ensures Next(c, q, trace[n + 1]) == PhaseAfter(c, trace[..n + 2]) != Broken
    ensures Recorded(p, trace[..n]) && Recorded(q, trace[..n + 1])
  {
    hide Next, Recorded;
    PrefixFollows(c, trace, n);
    PrefixFollows(c, trace, n + 1);
    PrefixFollows(c, trace, n + 2);
    p, q := PhaseAfter(c, trace[..n]), PhaseAfter(c, trace[..n + 1]);
    PhaseRecorded(c, trace[..n]);
    PhaseRecorded(c, trace[..n + 1]);
    assert trace[..n + 1] == trace[..n] + [trace[n]];
    PhaseAppend(c, trace[..n], trace[n]);
    assert trace[..n + 2] == trace[..n + 1] + [trace[n + 1]];
    PhaseAppend(c, trace[..n + 1], trace[n + 1]);
  }

  /**
   The k-th failed handler call for a message is, unless it was the last, followed by a wait of
   min(base * 2^(k-1), max): the waits double up to the cap.
   */
  lemma {:induction false} HandlerWaits(c: Config, trace: seq<Action>, n: nat)
    requires Follows(c, trace) && n + 1 < |trace| && trace[n].Handled? && !trace[n].ok
    requires c.retryBackoff > 0 && c.retryBackoffMax > 0 && NoOverflow(c.retryBackoff, c.retryBackoffMax)
    ensures var k := FailedCalls(trace[..n + 1]);
      && 1 <= k <= c.maxProcessingRetries
      && trace[n + 1] == Slept(Min(c.retryBackoff * Pow2(k - 1), c.retryBackoffMax))
  {
    hide BackoffOf, NoOverflow, Pow2, Min, FailedCalls, FailedCommits;
    var p, q := StepAt(c, trace, n);
    var k := FailedCalls(trace[..n + 1]);
    assert q.HandleBackoff? && q.failures == k;
    BackoffClosedForm(k - 1, c.retryBackoff, c.retryBackoffMax);
  }

  /** A failed commit is, unless it was the last, followed by the same wait every time. */
  lemma {:induction false} CommitWaits(c: Config, trace: seq<Action>, n: nat)
    requires Follows(c, trace) && n + 1 < |trace| && trace[n].Committed? && !trace[n].ok
    ensures 1 <= FailedCommits(trace[..n + 1]) <= c.commitRetries
    ensures trace[n].cause == OtherFailure && trace[n + 1] == Slept(c.commitRetryBackoff)
  {
    hide BackoffOf, FailedCalls, FailedCommits;
    var p, q := StepAt(c, trace, n);
    assert q.CommitBackoff?;
  }

  /** A wait is followed by another try of what failed before it. */
  lemma {:induction false} WaitsEndInRetry(c: Config, trace: seq<Action>, n: nat)
    requires Follows(c, trace) && n + 1 < |trace| && trace[n].Slept?
    ensures n > 0 && if trace[n - 1].Handled? then trace[n + 1].Handled? && trace[n + 1].m == trace[n - 1].m
                     else trace[n - 1].Committed? && trace[n + 1].Committed? && trace[n + 1].m == trace[n - 1].m
  {
    hide BackoffOf, FailedCalls, FailedCommits;
    var p, q := StepAt(c, trace, n);
    assert p.HandleBackoff? || p.CommitBackoff?;
    assert trace[..n][n - 1] == trace[n - 1];
  }

  /** A fetched message goes to the handler, a handled one is committed, and only then is another one fetched. */
  lemma {:induction false} MessageCourse(c: Config, trace: seq<Action>, n: nat)
    requires Follows(c, trace) && n + 1 < |trace|
    ensures trace[n].Fetched? ==> trace[n + 1].Handled? && trace[n + 1].m == trace[n].m
    ensures trace[n].Handled? && trace[n].ok ==> trace[n + 1].Committed? && trace[n + 1].m == trace[n].m
    ensures trace[n].FetchRetried? || (trace[n].Committed? && trace[n].ok)
            ==> trace[n + 1].Fetched? || trace[n + 1].FetchRetried? || trace[n + 1].FetchFailed?
    ensures !trace[n].FetchFailed?
  {
    hide BackoffOf, FailedCalls, FailedCommits;
    var p, q := StepAt(c, trace, n);
  }
}
