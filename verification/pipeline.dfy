/** What the wired objects guarantee together: the counters, the totals and the sources behind them. */
module Pipeline {
  import opened Prelude
  import Outcomes
  import opened Domain
  import Normalizer
  import opened Ingest
  import opened OneVote
  import opened IngestHandler
  import opened RuntimeHandler
  import Win = WindowHistory
  import WindowTheorems

  lemma {:induction false} VotesWeighOne(votes: seq<Vote>)
    ensures Win.Mass(EventsOf(votes)) == |votes|
  {
    hide Win.FiledSecond;
    if votes != [] {
      var n := |votes| - 1;
      VotesWeighOne(votes[..n]);
      assert EventsOf(votes)[..n] == EventsOf(votes[..n]);
    }
  }

  /** The engine has been given one event per vote, each of weight one. */
  lemma {:induction false} EngineHoldsVotes(h: Handler)
    requires h.Valid() && h.deps.Ready?
    ensures h.deps.engine.events == EventsOf(VotesOf(h.SetupOf(), h.deliveries))
  {
    hide Run, Votes, EventsOf;
    RunFactors(h.SetupOf(), h.deliveries);
  }

  /** Conservation, end to end: each ingested event is in the current totals or was taken out of a bucket. */
  lemma {:induction false} IngestedConserved(rh: RuntimeHandler)
    requires rh.Valid() && rh.Wired() && rh.handler != null && rh.handler.deps.Ready?
    ensures var engine := rh.handler.deps.engine;
      rh.metrics.ingestTotal == SumMap(engine.totals) + engine.removed
  {
    hide Run, SumMap, VotesOf, EventsOf, Win.Mass;
    var h := rh.handler;
    EngineHoldsVotes(h);
    VotesWeighOne(VotesOf(h.SetupOf(), h.deliveries));
    WindowTheorems.ScoreConserved(h.deps.engine);
  }

  lemma {:induction false} TotalsOf(h: Handler, query: string)
    requires h.Valid() && h.deps.Ready?
    ensures var engine := h.deps.engine;
      Get(engine.totals, query) == Win.Total(Win.Survivors(engine.windowSeconds, engine.events), query)
  {
    hide Run, Win.Total, Win.Survivors;
    Win.AbsentIsZero(h.deps.engine.alive, query);
  }

  /** The sources of the ingested events with a given normalized query. */
  ghost function IngestedSources(id: Source, s: Setup, ds: seq<Delivery>, query: string): set<string> {
    set i | 0 <= i < |ds| && Run(s, ds).1[i].result == Ingested
            && Normalizer.Normalized(s.alphabet, ds[i].stops, ds[i].evt.queryRaw) == Some(query)
      :: id(ds[i].evt)
  }

  lemma {:induction false} VoteFrom(s: Setup, ds: seq<Delivery>, v: Vote) returns (i: nat)
    requires v in VotesOf(s, ds)
    ensures i < |ds| && Run(s, ds).1[i].result == Ingested && ds[i].evt == v.evt
    ensures Normalizer.Normalized(s.alphabet, ds[i].stops, ds[i].evt.queryRaw) == Some(v.req.query)
  {
    hide Handle, Run, Votes, Normalizer.Normalized;
    if ds == [] {
      NothingProcessed(s);
      EmptyRun(s);
      assert false;
    } else {
      var n := |ds| - 1;
      var (st, log) := Run(s, ds[..n]);
      var e := Entry(ds[n], Handle(s, st, ds[n]).1);
      assert ds == ds[..n] + [ds[n]];
      RunAppend(s, ds[..n], ds[n]);
      LogAppend(s, log, e);
      if v in VotesOf(s, ds[..n]) {
        i := VoteFrom(s, ds[..n], v);
      } else {
        i := n;
      }
    }
  }

  lemma {:induction false} AcceptedAreIngested(id: Source, s: Setup, ds: seq<Delivery>, query: string)
    ensures |AcceptedSources(id, VotesOf(s, ds), query)| <= |IngestedSources(id, s, ds, query)|
  {
    hide Run, VotesOf, Normalizer.Normalized;
    var accepted, ingested := AcceptedSources(id, VotesOf(s, ds), query), IngestedSources(id, s, ds, query);
    forall x | x in accepted ensures x in ingested {
      var v :| v in VotesOf(s, ds) && v.req.query == query && id(v.evt) == x;
      var i := VoteFrom(s, ds, v);
    }
    assert ingested == accepted + (ingested - accepted);
  }

  /**
   However sources are told apart, the total the engine holds for a query is the number of distinct sources
   behind its live votes, and never exceeds the number of distinct sources whose events for it were ever ingested.
   */
  lemma {:induction false} TotalCountsSources(h: Handler, id: Source, lag: int, query: string)
    requires h.Valid() && h.deps.Ready? && Identifies(id) && Monotone(h.deliveries) && Timely(h.deliveries, lag)
    requires h.deps.fraud.cfg.contributionWindow >= (1000 * h.deps.engine.windowSeconds + 2 * lag) * 1_000_000
    ensures var votes := VotesOf(h.SetupOf(), h.deliveries);
      var live := LiveSources(id, h.deps.engine.windowSeconds, EventsOf(votes), votes, query, |votes|);
      Get(h.deps.engine.totals, query) == |live| <= |IngestedSources(id, h.SetupOf(), h.deliveries, query)|
  {
    hide Run, VotesOf, EventsOf, LiveSources, AcceptedSources, IngestedSources, Identifies, Win.Survivors, Win.Total,
         Monotone, Timely;
    AcceptedAreIngested(id, h.SetupOf(), h.deliveries, query);
    EngineHoldsVotes(h);
    TotalsOf(h, query);
    ScoreCountsSources(id, h.SetupOf(), h.deps.engine.windowSeconds, lag, h.deliveries, query);
  }

  lemma {:induction false} SourcesSpelled(s: Setup, ds: seq<Delivery>, query: string)
    ensures var log := Run(s, ds).1;
      var counted := set i | 0 <= i < |ds| && log[i].result == Ingested
                             && Normalizer.Normalized(s.alphabet, ds[i].stops, ds[i].evt.queryRaw) == Some(query) :: i;
      && IngestedSources(BY_IP, s, ds, query) == (set i | i in counted :: ds[i].evt.ipHash)
      && IngestedSources(BY_SESSION, s, ds, query) == (set i | i in counted :: ds[i].evt.sessionIDHash)
      && IngestedSources(BY_USER_OR_IP, s, ds, query)
         == (set i | i in counted ::
               var e := ds[i].evt;
               if e.userIDHash.Some? && e.userIDHash.value != "" then "u" + e.userIDHash.value else "i" + e.ipHash)
  {
    hide Run, Normalizer.Normalized;
  }

  /** Hence at most the distinct ips, the distinct sessions, and the users with ips for the anonymous. */
  lemma {:induction false} TotalBounded(h: Handler, lag: int, query: string)
    requires h.Valid() && h.deps.Ready? && Monotone(h.deliveries) && Timely(h.deliveries, lag)
    requires h.deps.fraud.cfg.contributionWindow >= (1000 * h.deps.engine.windowSeconds + 2 * lag) * 1_000_000
    ensures var s, ds, total := h.SetupOf(), h.deliveries, Get(h.deps.engine.totals, query);
      var log := Run(s, ds).1;
      var counted := set i | 0 <= i < |ds| && log[i].result == Ingested
                             && Normalizer.Normalized(s.alphabet, ds[i].stops, ds[i].evt.queryRaw) == Some(query) :: i;
      && total <= |set i | i in counted :: ds[i].evt.ipHash|
      && total <= |set i | i in counted :: ds[i].evt.sessionIDHash|
      && total <= |set i | i in counted ::
                     var e := ds[i].evt;
                     if e.userIDHash.Some? && e.userIDHash.value != "" then "u" + e.userIDHash.value
                     else "i" + e.ipHash|
  {
    hide *;
    SourcesIdentify();
    TotalCountsSources(h, BY_IP, lag, query);
    TotalCountsSources(h, BY_SESSION, lag, query);
    TotalCountsSources(h, BY_USER_OR_IP, lag, query);
    SourcesSpelled(h.SetupOf(), h.deliveries, query);
  }

  /**
   Which reason a message is dropped for: the validator's own, the unknown one for any other failure of the
   validator, and for an event the one of the result that the deliveries before it call for.
   */
  lemma {:induction false} DropsExplained(rh: RuntimeHandler, payload: Payload, now: int, wall: int)
    requires rh.Valid() && rh.validator.Some? && rh.handler != null && rh.handler.deps.Ready?
    requires !rh.handler.deps.normalizer.alphabet.alnum('|')
    ensures match rh.validator.value(payload)
      case RejectError(reason) => rh.DropReason(payload, now, wall) == Some(reason)
      case OtherError => rh.DropReason(payload, now, wall) == Some("UNKNOWN_REJECT_REASON")
      case Mapped(evt) =>
        var h := rh.handler;
        var d := Delivery(evt, now, wall, h.deps.normalizer.stopWords);
        Monotone(h.deliveries + [d]) ==>
          rh.DropReason(payload, now, wall)
          == match Outcomes.ResultFor(h.SetupOf(), Run(h.SetupOf(), h.deliveries).1, d)
             case Ingested => None
             case Duplicate => Some("DUPLICATE_EVENT_ID")
             case InvalidQuery => Some("INVALID_QUERY")
             case Refused(o) =>
               match o
               case MissingIdentifiers => Some("ANTI_FRAUD_MISSING_IDENTIFIERS")
               case EmptyQuery => Some("ANTI_FRAUD_DEGRADED")
               case InvalidConfig => Some("ANTI_FRAUD_DEGRADED")
               case IPBlocked => Some("ANTI_FRAUD_IP_BLOCKED")
               case SessionBlocked => Some("ANTI_FRAUD_SESSION_ENTROPY")
               case RateLimited => Some("ANTI_FRAUD_IP_RATE_LIMIT")
               case Capped => Some("ANTI_FRAUD_CONTRIBUTION_CAP")
               case EntropyExceeded => Some("ANTI_FRAUD_SESSION_ENTROPY")
               case Accepted => None
  {
    hide Run, Ingest.Handle, Outcomes.ResultFor, Monotone;
    if rh.validator.value(payload).Mapped? {
      var h := rh.handler;
      var d := Delivery(rh.validator.value(payload).evt, now, wall, h.deps.normalizer.stopWords);
      if Monotone(h.deliveries + [d]) {
        Outcomes.ResultExact(h.SetupOf(), h.deliveries, d);
      }
    }
  }
}
