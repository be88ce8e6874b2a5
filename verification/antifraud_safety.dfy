/** Whole-run guarantees of the anti-fraud rules, over every run with a nondecreasing clock. */
module AntiFraudSafety {
  import opened Prelude
  import opened TimedMarks
  import opened AntiFraudRules
  import opened AntiFraudReference

  function History(c: Config, reqs: seq<Request>): seq<Entry> { Run(c, reqs).1 }

  lemma {:induction false} RunPrefix(c: Config, reqs: seq<Request>, k: nat)
    requires k <= |reqs|
    ensures History(c, reqs)[..k] == History(c, reqs[..k])
    decreases |reqs| - k
  {
    hide Step;
    if k == |reqs| {
      assert reqs[..k] == reqs;
    } else {
      RunPrefix(c, reqs, k + 1);
      assert reqs[..k + 1][..k] == reqs[..k];
      var h := History(c, reqs[..k + 1]);
      assert h == History(c, reqs[..k]) + [h[k]];
      assert History(c, reqs)[..k] == h[..k];
    }
  }

  /** Every logged verdict is the one the reference gives on the log before it. */
  lemma {:induction false} Explained(c: Config, reqs: seq<Request>, i: nat)
    requires Monotone(reqs) && i < |reqs|
    ensures var log := History(c, reqs); log[i] == Entry(reqs[i], RefOutcome(c, log[..i], reqs[i]))
  {
    hide Step, RefOutcome;
    RunPrefix(c, reqs, i);
    RunPrefix(c, reqs, i + 1);
    CleanupInvisible(c, reqs[..i]);
    CleanupInvisible(c, reqs[..i + 1]);
    assert reqs[..i + 1][..i] == reqs[..i];
    assert History(c, reqs)[i] == History(c, reqs)[..i + 1][i];
  }

  // ----- contribution spacing

  ghost predicate ShareIdentity(a: Request, b: Request) {
    || a.ip == b.ip
    || a.session == b.session
    || (a.user.Some? && a.user == b.user && a.user.value != "")
  }

  predicate Consumes(o: Outcome) { o == Accepted || o == EntropyExceeded }

  lemma {:induction false} SharedKey(a: Request, b: Request) returns (key: string)
    requires a.query == b.query && ShareIdentity(a, b)
    ensures key in CapKeys(a) && key in CapKeys(b)
  {
    var identity := if a.ip == b.ip then "ip:" + a.ip
                    else if a.session == b.session then "session:" + a.session
                    else "user:" + a.user.value;
    assert IdentityKeys(a)[0] == "ip:" + a.ip && IdentityKeys(a)[1] == "session:" + a.session;
    assert IdentityKeys(b)[0] == "ip:" + b.ip && IdentityKeys(b)[1] == "session:" + b.session;
    assert a.user.Some? && a.user.value != "" ==> IdentityKeys(a)[2] == "user:" + a.user.value;
    assert b.user.Some? && b.user.value != "" ==> IdentityKeys(b)[2] == "user:" + b.user.value;
    assert identity in IdentityKeys(a) && identity in IdentityKeys(b);
    key := ContributionKey(identity, a.query);
  }

  /**
   Two requests that consumed the cap for one query and share an ip, a session or a user lie at
   least a contribution window apart, whatever was deleted or overwritten in between.
   */
  lemma {:induction false} ContributionSpacing(c: Config, reqs: seq<Request>, i: nat, j: nat)
    requires Monotone(reqs) && i < j < |reqs|
    requires Consumes(History(c, reqs)[i].outcome) && Consumes(History(c, reqs)[j].outcome)
    requires reqs[i].query == reqs[j].query && ShareIdentity(reqs[i], reqs[j])
    ensures reqs[j].now - reqs[i].now >= c.contributionWindow
  {
    hide Run, CapKeys, CountedIn, Window, Recent, ShareIdentity, Minute;
    var log := History(c, reqs);
    Explained(c, reqs, j);
    var key := SharedKey(reqs[i], reqs[j]);
    assert CapMarks(log[..j])[i] == CapMark(log[i]);
    assert !Covered(CapMarks(log[..j]), c.contributionWindow, key, reqs[j].now);
  }

  // ----- rate bound

  lemma {:induction false} NeverCounted(log: seq<Entry>, ip: string, minute: int)
    requires forall i :: 0 <= i < |log| ==> log[i].req.ip != ip
    ensures CountedIn(log, ip, minute) == 0
  {
    if log != [] { NeverCounted(log[..|log| - 1], ip, minute); }
  }

  function AcceptedIn(log: seq<Entry>, ip: string, lo: int, hi: int): nat {
    if log == [] then 0
    else
      var n := |log| - 1;
      AcceptedIn(log[..n], ip, lo, hi)
      + if log[n].outcome == Accepted && log[n].req.ip == ip && lo <= log[n].req.now < hi then 1 else 0
  }

  function AcceptedInMinute(log: seq<Entry>, ip: string, minute: int): nat {
    if log == [] then 0
    else
      var n := |log| - 1;
      AcceptedInMinute(log[..n], ip, minute)
      + if log[n].outcome == Accepted && log[n].req.ip == ip && Minute(log[n].req.now) == minute then 1 else 0
  }

  lemma {:induction false} AcceptedWereCounted(log: seq<Entry>, ip: string, minute: int)
    ensures AcceptedInMinute(log, ip, minute) <= CountedIn(log, ip, minute)
  {
    if log != [] {
      AcceptedWereCounted(log[..|log| - 1], ip, minute);
    }
  }

  /** An ip is accepted at most Max times within one calendar minute. */
  lemma {:induction false} RateBoundPerMinute(c: Config, reqs: seq<Request>, ip: string, minute: int)
    requires Monotone(reqs) && ValidConfig(c)
    ensures AcceptedInMinute(History(c, reqs), ip, minute) <= c.maxRequestsPerMinutePerIP
  {
    hide Step, Window, Recent, AnyCovered, Covered, Minute;
    if reqs != [] {
      var n := |reqs| - 1;
      RateBoundPerMinute(c, reqs[..n], ip, minute);
      RunPrefix(c, reqs, n);
      Explained(c, reqs, n);
      AcceptedWereCounted(History(c, reqs[..n]), ip, minute);
    }
  }

  lemma {:induction false} MinuteSpan(lo: int, now: int)
    requires lo <= now < lo + 60_000_000_000
    ensures Minute(now) == Minute(lo) || Minute(now) == Minute(lo) + 1
  {
  }

  lemma {:induction false} IntervalMeetsTwoMinutes(log: seq<Entry>, ip: string, lo: int)
    ensures AcceptedIn(log, ip, lo, lo + 60_000_000_000)
         <= AcceptedInMinute(log, ip, Minute(lo)) + AcceptedInMinute(log, ip, Minute(lo) + 1)
  {
    hide Minute;
    if log != [] {
      IntervalMeetsTwoMinutes(log[..|log| - 1], ip, lo);
      var now := log[|log| - 1].req.now;
      if lo <= now < lo + 60_000_000_000 {
        MinuteSpan(lo, now);
      }
    }
  }

  /** Hence at most twice Max in any half-open interval of sixty seconds. */
  lemma {:induction false} RateBound(c: Config, reqs: seq<Request>, ip: string, lo: int)
    requires Monotone(reqs) && ValidConfig(c)
    ensures AcceptedIn(History(c, reqs), ip, lo, lo + 60_000_000_000) <= 2 * c.maxRequestsPerMinutePerIP
  {
    hide Run, Minute;
    IntervalMeetsTwoMinutes(History(c, reqs), ip, lo);
    RateBoundPerMinute(c, reqs, ip, Minute(lo));
    RateBoundPerMinute(c, reqs, ip, Minute(lo) + 1);
  }

  // ----- blocks

  ghost predicate LimitTrippedWithin(c: Config, log: seq<Entry>, ip: string, u: int) {
    exists i :: 0 <= i < |log| && log[i].outcome == RateLimited && log[i].req.ip == ip
                && u < log[i].req.now + c.ipBlockDuration
  }

  ghost predicate EntropyTrippedWithin(c: Config, log: seq<Entry>, id: string, u: int) {
    exists i :: 0 <= i < |log| && log[i].outcome == EntropyExceeded && log[i].req.session == id
                && u < log[i].req.now + c.sessionBlockDuration
  }

  lemma {:induction false} MarksMean(c: Config, log: seq<Entry>, r: Request)
    ensures Covered(LimitMarks(log), c.ipBlockDuration, r.ip, r.now) <==> LimitTrippedWithin(c, log, r.ip, r.now)
    ensures Covered(EntropyMarks(log), c.sessionBlockDuration, r.session, r.now)
            <==> EntropyTrippedWithin(c, log, r.session, r.now)
  {
    var limits, trips := LimitMarks(log), EntropyMarks(log);
    if LimitTrippedWithin(c, log, r.ip, r.now) {
      var i :| 0 <= i < |log| && log[i].outcome == RateLimited && log[i].req.ip == r.ip
               && r.now < log[i].req.now + c.ipBlockDuration;
      assert limits[i] == LimitMark(log[i]);
    }
    if EntropyTrippedWithin(c, log, r.session, r.now) {
      var i :| 0 <= i < |log| && log[i].outcome == EntropyExceeded && log[i].req.session == r.session
               && r.now < log[i].req.now + c.sessionBlockDuration;
      assert trips[i] == EntropyMark(log[i]);
    }
  }

  /** Both blocks hold for exactly their duration from the trip, and only a trip starts one. */
  lemma {:induction false} BlocksExact(c: Config, reqs: seq<Request>, j: nat)
    requires Monotone(reqs) && j < |reqs| && Admissible(c, reqs[j])
    ensures var log, r := History(c, reqs), reqs[j];
      && (log[j].outcome == IPBlocked <==> LimitTrippedWithin(c, log[..j], r.ip, r.now))
      && (log[j].outcome == SessionBlocked
          <==> !LimitTrippedWithin(c, log[..j], r.ip, r.now) && EntropyTrippedWithin(c, log[..j], r.session, r.now))
  {
    hide Run, CountedIn, Window, Recent, AnyCovered, Covered, Minute, CapKeys, LimitTrippedWithin, EntropyTrippedWithin;
    Explained(c, reqs, j);
    MarksMean(c, History(c, reqs)[..j], reqs[j]);
  }

  /** The entries that reached the counter; every other verdict is given before any rule is charged. */
  function Charged(log: seq<Entry>): seq<Entry> {
    if log == [] then []
    else
      var n := |log| - 1;
      Charged(log[..n]) + if Counts(log[n].outcome) then [log[n]] else []
  }

  function Requests(log: seq<Entry>): seq<Request> {
    seq(|log|, i requires 0 <= i < |log| => log[i].req)
  }

  lemma {:induction false} ChargedLast(log: seq<Entry>)
    requires log != []
    ensures var n := |log| - 1;
      Charged(log) == if Counts(log[n].outcome) then Charged(log[..n]) + [log[n]] else Charged(log[..n])
  {
  }

  lemma {:induction false} ChargedLookups(c: Config, log: seq<Entry>, key: string, u: int)
    ensures Covered(LimitMarks(Charged(log)), c.ipBlockDuration, key, u)
            <==> Covered(LimitMarks(log), c.ipBlockDuration, key, u)
    ensures Covered(EntropyMarks(Charged(log)), c.sessionBlockDuration, key, u)
            <==> Covered(EntropyMarks(log), c.sessionBlockDuration, key, u)
    ensures Covered(CapMarks(Charged(log)), c.contributionWindow, key, u)
            <==> Covered(CapMarks(log), c.contributionWindow, key, u)
  {
    hide CapKeys, Covered, LimitMarks, EntropyMarks, CapMarks;
    if log != [] {
      var n := |log| - 1;
      var e := log[n];
      ChargedLookups(c, log[..n], key, u);
      ChargedLast(log);
      assert log == log[..n] + [e];
      MarksAppend(log[..n], e);
      MarksAppend(Charged(log[..n]), e);
      CoveredAppend(LimitMarks(log[..n]), LimitMark(e), c.ipBlockDuration, key, u);
      CoveredAppend(EntropyMarks(log[..n]), EntropyMark(e), c.sessionBlockDuration, key, u);
      CoveredAppend(CapMarks(log[..n]), CapMark(e), c.contributionWindow, key, u);
      CoveredAppend(LimitMarks(Charged(log[..n])), LimitMark(e), c.ipBlockDuration, key, u);
      CoveredAppend(EntropyMarks(Charged(log[..n])), EntropyMark(e), c.sessionBlockDuration, key, u);
      CoveredAppend(CapMarks(Charged(log[..n])), CapMark(e), c.contributionWindow, key, u);
    }
  }

  lemma {:induction false} TablesAppend(log: seq<Entry>, e: Entry, ip: string, minute: int, id: string)
    ensures CountedIn(log + [e], ip, minute)
         == CountedIn(log, ip, minute)
            + if Counts(e.outcome) && e.req.ip == ip && Minute(e.req.now) == minute then 1 else 0
    ensures Window(log + [e], id)
         == if e.req.session != id || !Consumes(e.outcome) then Window(log, id)
            else if e.outcome == Accepted then Window(log, id) + [SessionEvent(e.req.now, e.req.query)]
            else []
  {
    hide Minute;
    assert (log + [e])[..|log|] == log;
  }

  lemma {:induction false} ChargedTables(log: seq<Entry>, ip: string, minute: int, id: string)
    ensures CountedIn(Charged(log), ip, minute) == CountedIn(log, ip, minute)
    ensures Window(Charged(log), id) == Window(log, id)
  {
    hide Minute, CountedIn, Window;
    if log == [] {
    } else {
      var n := |log| - 1;
      ChargedTables(log[..n], ip, minute, id);
      ChargedLast(log);
      assert log == log[..n] + [log[n]];
      TablesAppend(log[..n], log[n], ip, minute, id);
      TablesAppend(Charged(log[..n]), log[n], ip, minute, id);
    }
  }

  lemma {:induction false} ChargedDecidesAlike(c: Config, log: seq<Entry>, r: Request)
    ensures RefOutcome(c, Charged(log), r) == RefOutcome(c, log, r)
  {
    hide Charged, Covered, CapKeys, CountedIn, Window, Recent, Minute, LimitMarks, EntropyMarks, CapMarks;
    ChargedLookups(c, log, r.ip, r.now);
    ChargedLookups(c, log, r.session, r.now);
    ChargedTables(log, r.ip, Minute(r.now), r.session);
    forall key ensures Covered(CapMarks(Charged(log)), c.contributionWindow, key, r.now)
                       <==> Covered(CapMarks(log), c.contributionWindow, key, r.now) {
      ChargedLookups(c, log, key, r.now);
    }
  }

  lemma {:induction false} RefRunCharged(c: Config, reqs: seq<Request>)
    ensures RefRun(c, Requests(Charged(RefRun(c, reqs)))) == Charged(RefRun(c, reqs))
  {
    hide RefOutcome, Charged;
    if reqs == [] {
      assert Charged([]) == [] by { ChargedEmpty(); }
    } else {
      var n := |reqs| - 1;
      var log, r := RefRun(c, reqs[..n]), reqs[n];
      var e := Entry(r, RefOutcome(c, log, r));
      RefRunCharged(c, reqs[..n]);
      ChargedDecidesAlike(c, log, r);
      ChargedLast(log + [e]);
      assert (log + [e])[..|log|] == log;
      if Counts(e.outcome) {
        RefRunAppend(c, Charged(log), r);
      }
    }
  }

  lemma {:induction false} ChargedEmpty()
    ensures Charged([]) == []
  {
  }

  lemma {:induction false} RefRunAppend(c: Config, log: seq<Entry>, r: Request)
    requires RefRun(c, Requests(log)) == log
    ensures RefRun(c, Requests(log + [Entry(r, RefOutcome(c, log, r))])) == log + [Entry(r, RefOutcome(c, log, r))]
  {
    hide RefOutcome;
    var reqs := Requests(log + [Entry(r, RefOutcome(c, log, r))]);
    assert reqs[..|reqs| - 1] == Requests(log);
  }

  ghost predicate Ordered(log: seq<Entry>) {
    forall i, j :: 0 <= i < j < |log| ==> log[i].req.now <= log[j].req.now
  }

  lemma {:induction false} ChargedOrdered(log: seq<Entry>)
    requires Ordered(log)
    ensures Ordered(Charged(log)) && (forall e :: e in Charged(log) ==> e in log)
  {
    if log != [] {
      var n := |log| - 1;
      ChargedOrdered(log[..n]);
      forall i, j | 0 <= i < j < |Charged(log)| ensures Charged(log)[i].req.now <= Charged(log)[j].req.now {
        assert Charged(log)[i] in Charged(log[..n]);
      }
    }
  }

  /**
   Requests turned away by a block (or for a missing field) have no effect: erase them all from a
   run and every other verdict stays the same. So a blocked request never extends a block.
   */
  lemma {:induction false} BlockedRequestsLeaveNoTrace(c: Config, reqs: seq<Request>)
    requires Monotone(reqs)
    ensures var kept := Charged(History(c, reqs)); History(c, Requests(kept)) == kept
  {
    hide Run, RefRun, Charged;
    CleanupInvisible(c, reqs);
    var log := History(c, reqs);
    assert Ordered(log);
    ChargedOrdered(log);
    CleanupInvisible(c, Requests(Charged(log)));
    RefRunCharged(c, reqs);
  }
}
