/** The rate bound is exact: a run around the turn of a minute attains twice Max. */
module AntiFraudRate {
  import opened Prelude
  import opened TimedMarks
  import opened AntiFraudRules
  import opened AntiFraudReference
  import opened AntiFraudSafety
  import opened AntiFraudKeys
  import opened Witness

  /** From one ip: Max requests in the last nanosecond of a minute, the others in the next nanosecond. */
  function Burst(c: Config, k: nat): seq<Request> {
    seq(k, i requires 0 <= i < k =>
      Request(IP, Numbered(SESSION, i), None, Numbered(QUERY, i),
              if i < c.maxRequestsPerMinutePerIP then MINUTE - 1 else MINUTE))
  }

  lemma {:induction false} BurstMonotone(c: Config, k: nat)
    ensures Monotone(Burst(c, k))
  {
  }

  lemma {:induction false} TurnOfMinute()
    ensures Minute(MINUTE - 1) == 0 && Minute(MINUTE) == 1
  {
  }

  /** The requests of a burst counted in one minute. */
  lemma {:induction false} BurstCounted(c: Config, log: seq<Entry>)
    requires ValidConfig(c) && Requests(log) == Burst(c, |log|)
    requires forall i :: 0 <= i < |log| ==> log[i].outcome == Accepted
    ensures var m := c.maxRequestsPerMinutePerIP;
      && CountedIn(log, IP, 0) == (if |log| < m then |log| else m)
      && CountedIn(log, IP, 1) == (if |log| < m then 0 else |log| - m)
  {
    hide Minute, Numbered;
    TurnOfMinute();
    if log != [] {
      var n := |log| - 1;
      assert Requests(log[..n]) == Requests(log)[..n] == Burst(c, |log|)[..n] == Burst(c, n);
      BurstCounted(c, log[..n]);
      assert log[n].req == Burst(c, |log|)[n] by { assert Requests(log)[n] == Burst(c, |log|)[n]; }
    }
  }

  lemma {:induction false} UnseenSession(log: seq<Entry>, id: string)
    requires forall i :: 0 <= i < |log| ==> log[i].req.session != id
    ensures Window(log, id) == []
  {
    if log != [] { UnseenSession(log[..|log| - 1], id); }
  }

  /** Every request of the burst has a fresh session and query, so only the counter could stop it. */
  lemma {:induction false} BurstAccepts(c: Config, k: nat, log: seq<Entry>)
    requires ValidConfig(c) && |log| == k < 2 * c.maxRequestsPerMinutePerIP && Requests(log) == Burst(c, k)
    requires forall i :: 0 <= i < k ==> log[i].outcome == Accepted
    ensures RefOutcome(c, log, Burst(c, k + 1)[k]) == Accepted
  {
    hide CapKeys, Minute, Numbered, CountedIn, Window, AnyCovered, Covered;
    var r := Burst(c, k + 1)[k];
    NumberedShape(QUERY, k);
    NumberedShape(SESSION, k);
    forall i | 0 <= i < k
      ensures log[i].req.session != r.session && Separable(log[i].req, r) && log[i].req.query != r.query
    {
      NumberedShape(QUERY, i);
      NumberedDiffer(SESSION, i, k);
      NumberedDiffer(QUERY, i, k);
      assert Requests(log)[i] == Burst(c, k)[i];
    }
    MarksMean(c, log, r);
    UnseenSession(log, r.session);
    CoverIsConflict(c, log, r);
    BurstCounted(c, log);
    TurnOfMinute();
    assert Recent([], r.now - c.sessionEntropyWindow) + {r.query} == {r.query};
  }

  lemma {:induction false} BurstAccepted(c: Config, k: nat)
    requires ValidConfig(c) && k <= 2 * c.maxRequestsPerMinutePerIP
    ensures var log := History(c, Burst(c, k));
      && Requests(log) == Burst(c, k)
      && (forall i :: 0 <= i < k ==> log[i].outcome == Accepted)
  {
    hide Run, RefOutcome, Numbered;
    if k > 0 {
      BurstAccepted(c, k - 1);
      BurstMonotone(c, k);
      Explained(c, Burst(c, k), k - 1);
      RunPrefix(c, Burst(c, k), k - 1);
      assert Burst(c, k)[..k - 1] == Burst(c, k - 1);
      var log := History(c, Burst(c, k));
      BurstAccepts(c, k - 1, log[..k - 1]);
      assert forall i :: 0 <= i < k - 1 ==> log[i] == log[..k - 1][i];
    }
  }

  lemma {:induction false} AllInInterval(log: seq<Entry>, ip: string, lo: int, hi: int)
    requires forall i :: 0 <= i < |log| ==>
      log[i].outcome == Accepted && log[i].req.ip == ip && lo <= log[i].req.now < hi
    ensures AcceptedIn(log, ip, lo, hi) == |log|
  {
    if log != [] { AllInInterval(log[..|log| - 1], ip, lo, hi); }
  }

  /** Two nanoseconds around the turn of a minute let twice Max requests of an ip through. */
  lemma {:induction false} BurstAttains(c: Config)
    requires ValidConfig(c)
    ensures var reqs := Burst(c, 2 * c.maxRequestsPerMinutePerIP);
      && Monotone(reqs)
      && AcceptedIn(History(c, reqs), IP, MINUTE - 1, MINUTE - 1 + 60_000_000_000) == 2 * c.maxRequestsPerMinutePerIP
  {
    hide Run, Numbered;
    var k := 2 * c.maxRequestsPerMinutePerIP;
    var log := History(c, Burst(c, k));
    BurstMonotone(c, k);
    BurstAccepted(c, k);
    forall i | 0 <= i < k ensures log[i].req == Burst(c, k)[i] {
      assert Requests(log)[i] == Burst(c, k)[i];
    }
    AllInInterval(log, IP, MINUTE - 1, MINUTE - 1 + 60_000_000_000);
  }

  ghost predicate RateBoundedBy(c: Config, bound: int) {
    forall reqs, ip, lo, hi :: Monotone(reqs) && hi == lo + 60_000_000_000
      ==> AcceptedIn(History(c, reqs), ip, lo, hi) <= bound
  }

  /** A number bounds what any sixty seconds accept of an ip, over all runs, if and only if it is twice Max or more. */
  lemma {:induction false} RateBoundExact(c: Config, bound: int)
    requires ValidConfig(c)
    ensures RateBoundedBy(c, bound) <==> bound >= 2 * c.maxRequestsPerMinutePerIP
  {
    hide Run, Burst;
    if bound >= 2 * c.maxRequestsPerMinutePerIP {
      forall reqs, ip, lo, hi | Monotone(reqs) && hi == lo + 60_000_000_000
        ensures AcceptedIn(History(c, reqs), ip, lo, hi) <= bound
      {
        RateBound(c, reqs, ip, lo);
      }
    } else {
      BurstAttains(c);
    }
  }
}
