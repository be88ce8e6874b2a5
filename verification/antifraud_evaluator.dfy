/** The evaluator object: maps and session records updated in place, as the source does. */
module AntiFraudEvaluator {
  import opened Prelude
  import opened Domain
  import opened TimedMarks
  import Rules = AntiFraudRules
  import opened AntiFraudRules
  import opened AntiFraudSession
  import opened AntiFraudReference
  import opened AntiFraudVerdicts

  class SessionState {
    var events: seq<SessionEvent>
    var counts: map<string, int>
    var lastSeen: int

    constructor ()
      ensures Value() == Session([], map[], 0)
    {
      events, counts, lastSeen := [], map[], 0;
    }

    ghost function Value(): Session
      reads this
    {
      Session(events, counts, lastSeen)
    }

    method Prune(cutoff: int)
      modifies this
      ensures Value() == Rules.Prune(old(Value()), cutoff)
    {
      var cutIndex := 0;
      while cutIndex < |events|
        invariant 0 <= cutIndex <= |events|
        invariant events == old(events) && lastSeen == old(lastSeen)
        invariant Rules.Prune(Session(events[cutIndex..], counts, lastSeen), cutoff)
               == Rules.Prune(old(Value()), cutoff)
      {
        var evt := events[cutIndex];
        if cutoff <= evt.at {
          break;
        }
        assert events[cutIndex..][1..] == events[cutIndex + 1..];
        if Get(counts, evt.query) <= 1 {
          counts := counts - {evt.query};
        } else {
          counts := counts[evt.query := counts[evt.query] - 1];
        }
        cutIndex := cutIndex + 1;
      }
      if cutIndex > 0 {
        events := events[cutIndex..];
      }
    }

    /** The request's visit to its session: stamp, prune, append, count. */
    method Observe(c: Config, r: Request)
      modifies this
      ensures Value() == Rules.Observe(c, old(Value()), r)
    {
      hide Rules.Prune;
      lastSeen := r.now;
      Prune(r.now - c.sessionEntropyWindow);
      events := events + [SessionEvent(r.now, r.query)];
      counts := counts[r.query := Get(counts, r.query) + 1];
    }
  }

  const DEFAULT_MAX_REQUESTS: int := 1000
  const DEFAULT_MAX_QUERIES: int := 100
  const HOUR: int := 60 * MINUTE

  class Evaluator {
    const cfg: Config
    var counters: map<string, int>
    var bucketMin: int
    var lastCleanupAt: Option<int>
    var ipBlockedUntil: map<string, int>
    var sessionBlockedUntil: map<string, int>
    var contributionSeen: map<string, int>
    var sessionEntropy: map<string, SessionState>

    ghost var calls: seq<Request>  // every call so far

    /** No two sessions share a record, and the state is that of the run of the calls so far. */
    ghost predicate Valid()
      reads this, sessionEntropy.Values
    {
      && Separate()
      && Abs() == Run(cfg, calls).0
    }

    ghost predicate Separate()
      reads `sessionEntropy
    {
      forall a, b :: a in sessionEntropy && b in sessionEntropy && a != b ==> sessionEntropy[a] != sessionEntropy[b]
    }

    ghost function Sessions(): map<string, Session>
      reads `sessionEntropy, sessionEntropy.Values
    {
      map id | id in sessionEntropy :: sessionEntropy[id].Value()
    }

    ghost function Abs(): State
      reads this, sessionEntropy.Values
    {
      State(counters, bucketMin, lastCleanupAt, ipBlockedUntil, sessionBlockedUntil, contributionSeen, Sessions())
    }

    /** Non-positive settings are replaced by defaults, so a built evaluator never runs unprotected. */
    constructor (requested: Config)
      ensures Valid() && calls == [] && sessionEntropy == map[]
      ensures ValidConfig(cfg)
      ensures cfg == Config(
        if requested.maxRequestsPerMinutePerIP > 0 then requested.maxRequestsPerMinutePerIP else 1000,
        if requested.ipBlockDuration > 0 then requested.ipBlockDuration else 3_600_000_000_000,
        if requested.contributionWindow > 0 then requested.contributionWindow else 3_600_000_000_000,
        if requested.maxUniqueQueriesPerSession > 0 then requested.maxUniqueQueriesPerSession else 100,
        if requested.sessionEntropyWindow > 0 then requested.sessionEntropyWindow else 300_000_000_000,
        if requested.sessionBlockDuration > 0 then requested.sessionBlockDuration else 3_600_000_000_000)
    {
      var c := requested;
      if c.maxRequestsPerMinutePerIP <= 0 {
        c := c.(maxRequestsPerMinutePerIP := DEFAULT_MAX_REQUESTS);
      }
      if c.ipBlockDuration <= 0 {
        c := c.(ipBlockDuration := HOUR);
      }
      if c.contributionWindow <= 0 {
        c := c.(contributionWindow := HOUR);
      }
      if c.maxUniqueQueriesPerSession <= 0 {
        c := c.(maxUniqueQueriesPerSession := DEFAULT_MAX_QUERIES);
      }
      if c.sessionEntropyWindow <= 0 {
        c := c.(sessionEntropyWindow := 5 * MINUTE);
      }
      if c.sessionBlockDuration <= 0 {
        c := c.(sessionBlockDuration := HOUR);
      }
      cfg := c;
      counters, bucketMin, lastCleanupAt := map[], 0, None;
      ipBlockedUntil, sessionBlockedUntil, contributionSeen, sessionEntropy := map[], map[], map[], map[];
      calls := [];
    }

    method PruneOne(id: string, cutoff: int)
      requires Separate() && id in sessionEntropy
      modifies sessionEntropy[id]
      ensures Sessions() == old(Sessions())[id := Rules.Prune(old(Sessions())[id], cutoff)]
    {
      hide Rules.Prune;
      sessionEntropy[id].Prune(cutoff);
    }

    method Delete(id: string)
      requires Separate()
      modifies `sessionEntropy
      ensures Separate() && sessionEntropy == old(sessionEntropy) - {id}
      ensures Sessions() == old(Sessions()) - {id}
    {
      sessionEntropy := sessionEntropy - {id};
    }

    method SweepOne(id: string, now: int)
      requires Separate() && id in sessionEntropy
      modifies `sessionEntropy, sessionEntropy[id]
      ensures Separate() && sessionEntropy.Values <= old(sessionEntropy.Values)
      ensures sessionEntropy.Keys >= old(sessionEntropy.Keys) - {id}
      ensures Sessions() == SweptOne(old(Sessions()), id, now, cfg.sessionEntropyWindow)
    {
      hide Rules.Prune, SweptOne, Separate;
      SweptOneCases(Sessions(), id, now, cfg.sessionEntropyWindow);
      PruneOne(id, now - cfg.sessionEntropyWindow);
      var state := sessionEntropy[id];
      assert Sessions()[id] == state.Value();
      hide Sessions;
      if |state.counts| == 0 && now - state.lastSeen > cfg.sessionEntropyWindow {
        Delete(id);
      }
    }

    method CleanupSessions(now: int)
      requires Separate()
      modifies `sessionEntropy, sessionEntropy.Values
      ensures Separate() && sessionEntropy.Values <= old(sessionEntropy.Values)
      ensures Sessions() == SweepSessions(old(Sessions()), now, cfg.sessionEntropyWindow)
    {
      hide Rules.Prune, PartlySwept, SweptOne, SweepSessions;
      ghost var before := Sessions();
      var ids := sessionEntropy.Keys;
      PartlySweptEnds(before, now, cfg.sessionEntropyWindow);
      assert before.Keys == ids;
      while ids != {}
        invariant Separate() && sessionEntropy.Values <= old(sessionEntropy.Values)
        invariant ids <= sessionEntropy.Keys && ids <= before.Keys
        invariant Sessions() == PartlySwept(before, ids, now, cfg.sessionEntropyWindow)
        decreases ids
      {
        var id :| id in ids;
        PartlySweptStep(before, ids, id, now, cfg.sessionEntropyWindow);
        SweepOne(id, now);
        ids := ids - {id};
      }
    }

    method CleanupLocked(now: int)
      requires Separate()
      modifies this`lastCleanupAt, this`ipBlockedUntil, this`sessionBlockedUntil, this`contributionSeen,
               this`sessionEntropy, sessionEntropy.Values
      ensures Separate() && sessionEntropy.Values <= old(sessionEntropy.Values)
      ensures Abs() == Cleanup(cfg, old(Abs()), now)
    {
      hide Rules.Prune, SweepSessions, Unexpired, Separate, Sessions;
      if lastCleanupAt.Some? && now - lastCleanupAt.value < CLEANUP_INTERVAL {
        return;
      }
      lastCleanupAt := Some(now);
      ipBlockedUntil := DropExpired(ipBlockedUntil, now);
      sessionBlockedUntil := DropExpired(sessionBlockedUntil, now);
      contributionSeen := DropExpired(contributionSeen, now);
      assert Sessions() == old(Sessions());
      CleanupSessions(now);
      assert Abs() == old(Abs()).(
        lastCleanupAt := Some(now),
        ipBlockedUntil := ipBlockedUntil,
        sessionBlockedUntil := sessionBlockedUntil,
        contributionSeen := contributionSeen,
        sessions := Sessions());
    }

    /** The scan over the identity keys, stopping at the first live cap. */
    method Conflicting(keys: seq<string>, query: string, now: int) returns (found: bool)
      ensures found <==> AnyActive(contributionSeen, KeySet(keys, query), now)
    {
      hide ContributionKey;
      for i := 0 to |keys|
        invariant forall j :: 0 <= j < i ==> !Active(contributionSeen, ContributionKey(keys[j], query), now)
      {
        var capKey := ContributionKey(keys[i], query);
        if capKey in contributionSeen && now < contributionSeen[capKey] {
          assert capKey in KeySet(keys, query);
          return true;
        }
      }
      return false;
    }

    method MarkSeen(keys: seq<string>, query: string, now: int)
      modifies `contributionSeen
      ensures contributionSeen == Consume(cfg, old(contributionSeen), KeySet(keys, query), now)
    {
      hide ContributionKey, Consume, KeySet;
      ConsumeNone(cfg, contributionSeen, query, now);
      for i := 0 to |keys|
        invariant contributionSeen == Consume(cfg, old(contributionSeen), KeySet(keys[..i], query), now)
      {
        assert keys[..i + 1] == keys[..i] + [keys[i]];
        ConsumeOneMore(cfg, old(contributionSeen), keys[..i], keys[i], query, now);
        contributionSeen := contributionSeen[ContributionKey(keys[i], query) := now + cfg.contributionWindow];
      }
      assert keys[..|keys|] == keys;
    }

    method EnsureSession(id: string)
      requires Separate()
      modifies `sessionEntropy
      ensures Separate() && id in sessionEntropy && fresh(sessionEntropy.Values - old(sessionEntropy.Values))
      ensures Sessions() == old(Sessions())[id := SessionOf(old(Sessions()), id)]
    {
      if id !in sessionEntropy {
        var state := new SessionState();
        sessionEntropy := sessionEntropy[id := state];
      }
    }

    /** The entropy rule, for a request that has passed the cap. */
    method RecordInSession(r: Request) returns (o: Outcome)
      requires Separate()
      modifies `sessionEntropy, `sessionBlockedUntil, sessionEntropy.Values
      ensures Separate() && fresh(sessionEntropy.Values - old(sessionEntropy.Values))
      ensures var s := Rules.Observe(cfg, SessionOf(old(Sessions()), r.session), r);
        if |s.counts| > cfg.maxUniqueQueriesPerSession then
          && o == EntropyExceeded
          && Sessions() == old(Sessions()) - {r.session}
          && sessionBlockedUntil == old(sessionBlockedUntil)[r.session := r.now + cfg.sessionBlockDuration]
        else
          && o == Accepted
          && Sessions() == old(Sessions())[r.session := s]
          && sessionBlockedUntil == old(sessionBlockedUntil)
    {
      hide Rules.Observe, Sessions, SessionOf, Separate;
      ghost var was := Sessions();
      EnsureSession(r.session);
      ObserveIn(r);
      Overwrites(was, r.session, SessionOf(was, r.session), Rules.Observe(cfg, SessionOf(was, r.session), r));
      if |sessionEntropy[r.session].counts| > cfg.maxUniqueQueriesPerSession {
        sessionBlockedUntil := sessionBlockedUntil[r.session := r.now + cfg.sessionBlockDuration];
        Delete(r.session);
        return EntropyExceeded;
      }
      return Accepted;
    }

    method ObserveIn(r: Request)
      requires Separate() && r.session in sessionEntropy
      modifies sessionEntropy[r.session]
      ensures Sessions() == old(Sessions())[r.session := Rules.Observe(cfg, old(Sessions())[r.session], r)]
      ensures Sessions()[r.session].counts == sessionEntropy[r.session].counts
    {
      hide Rules.Observe;
      sessionEntropy[r.session].Observe(cfg, r);
    }

    method CountIP(r: Request)
      modifies `counters, `bucketMin
      ensures r.ip in counters
      ensures Abs() == CountRequest(old(Abs()), r)
    {
      hide Sessions;
      var nowMin := Minute(r.now);
      if bucketMin != nowMin {
        bucketMin := nowMin;
        counters := map[];
      }
      counters := counters[r.ip := Get(counters, r.ip) + 1];
    }

    /** The cap, then the entropy rule, for a request that has been counted. */
    method ApplyCaps(r: Request) returns (o: Outcome)
      requires Separate()
      modifies `contributionSeen, `sessionEntropy, `sessionBlockedUntil, sessionEntropy.Values
      ensures Separate() && fresh(sessionEntropy.Values - old(sessionEntropy.Values))
      ensures var s := Rules.Observe(cfg, SessionOf(old(Sessions()), r.session), r);
        && o == (if AnyActive(old(contributionSeen), CapKeys(r), r.now) then Capped
                 else if |s.counts| > cfg.maxUniqueQueriesPerSession then EntropyExceeded
                 else Accepted)
        && Abs() == Settle(cfg, old(Abs()), CapKeys(r), s, r, o)
    {
      hide Rules.Observe, IdentityKeys, KeySet, AnyActive, Consume, Separate, Sessions, SessionOf;
      var keys := IdentityKeys(r);
      var conflict := Conflicting(keys, r.query, r.now);
      if conflict {
        return Capped;
      }
      MarkSeen(keys, r.query, r.now);
      o := RecordInSession(r);
    }

    /** The rules proper, in the order the source applies them. */
    method ApplyRules(r: Request) returns (o: Outcome)
      requires Separate()
      modifies this, sessionEntropy.Values
      ensures Separate() && fresh(sessionEntropy.Values - old(sessionEntropy.Values))
      ensures calls == old(calls)
      ensures var s := Rules.Observe(cfg, SessionOf(old(Sessions()), r.session), r);
        (Abs(), o) == Admit(cfg, old(Abs()), CapKeys(r), s, r)
    {
      hide Rules.Observe, Minute, CapKeys, AnyActive, Consume, Separate, Sessions, SessionOf, CountRequest;
      if r.ip in ipBlockedUntil && r.now < ipBlockedUntil[r.ip] {
        return IPBlocked;
      }
      if r.session in sessionBlockedUntil && r.now < sessionBlockedUntil[r.session] {
        return SessionBlocked;
      }
      ghost var st := Abs();
      CountIP(r);
      CountKeeps(st, r);
      if counters[r.ip] > cfg.maxRequestsPerMinutePerIP {
        ipBlockedUntil := ipBlockedUntil[r.ip := r.now + cfg.ipBlockDuration];
        return RateLimited;
      }
      o := ApplyCaps(r);
    }

    /** One verdict. In a run whose clock never went back it is the full history's verdict. */
    method Evaluate(evt: SearchEvent, query: string, now: int) returns (o: Outcome)
      requires Valid()
      modifies this, sessionEntropy.Values
      ensures Valid() && fresh(sessionEntropy.Values - old(sessionEntropy.Values))
      ensures calls == old(calls) + [Request(evt.ipHash, evt.sessionIDHash, evt.userIDHash, query, now)]
      ensures (Abs(), o) == Step(cfg, old(Abs()), calls[|old(calls)|])
      ensures Monotone(calls) ==> o == RefOutcome(cfg, RefRun(cfg, old(calls)), calls[|old(calls)|])
      ensures Monotone(calls) ==> o == Verdict(cfg, Run(cfg, old(calls)).1, calls[|old(calls)|])
    {
      hide Cleanup, Admit, CapKeys, Rules.Observe, RefOutcome, RefRun, Verdict, Run, SessionOf, Sessions, Separate,
           Monotone;
      var r := RequestOf(evt, query, now);
      if evt.ipHash == "" || evt.sessionIDHash == "" {
        o := MissingIdentifiers;
      } else if query == "" {
        o := EmptyQuery;
      } else if !ValidConfig(cfg) {
        o := InvalidConfig;
      } else {
        CleanupLocked(now);
        o := ApplyRules(r);
      }
      calls := calls + [r];
      RunStep(cfg, old(calls), r);
    }
  }

  lemma {:induction false} RunStep(c: Config, calls: seq<Request>, r: Request)
    ensures Run(c, calls + [r]).0 == Step(c, Run(c, calls).0, r).0
    ensures Monotone(calls + [r]) ==> Step(c, Run(c, calls).0, r).1 == RefOutcome(c, RefRun(c, calls), r)
    ensures Monotone(calls + [r]) ==> Step(c, Run(c, calls).0, r).1 == Verdict(c, Run(c, calls).1, r)
  {
    hide Step, RefOutcome, Verdict;
    assert (calls + [r])[..|calls|] == calls;
    if Monotone(calls + [r]) {
      CleanupInvisible(c, calls + [r]);
      CleanupInvisible(c, calls);
      VerdictOn(c, RefRun(c, calls), r);
    }
  }

  lemma {:induction false} ConsumeNone(c: Config, seen: map<string, int>, query: string, now: int)
    ensures Consume(c, seen, KeySet([], query), now) == seen
  {
  }

  lemma {:induction false} ConsumeOneMore(c: Config, seen: map<string, int>, keys: seq<string>, key: string,
                                          query: string, now: int)
    ensures Consume(c, seen, KeySet(keys + [key], query), now)
         == Consume(c, seen, KeySet(keys, query), now)[ContributionKey(key, query) := now + c.contributionWindow]
  {
    KeySetAppend(keys, key, query);
    hide KeySet, ContributionKey;
  }

  lemma {:induction false} KeySetAppend(keys: seq<string>, key: string, query: string)
    ensures KeySet(keys + [key], query) == KeySet(keys, query) + {ContributionKey(key, query)}
  {
    hide ContributionKey;
    assert KeySet(keys + [key], query) == KeySet(keys, query) + {ContributionKey(key, query)};
  }

  lemma {:induction false} Overwrites<V>(m: map<string, V>, id: string, v: V, w: V)
    ensures m[id := v][id := w] == m[id := w]
    ensures m[id := v][id := w] - {id} == m - {id}
  {
  }

  // ----- the cleanup loop halfway: `ids` are still to be visited

  ghost function SweptOne(sessions: map<string, Session>, id: string, now: int, window: int): map<string, Session>
    requires id in sessions
  {
    var p := Rules.Prune(sessions[id], now - window);
    if Idle(p, now, window) then sessions - {id} else sessions[id := p]
  }

  lemma {:induction false} SweptOneCases(sessions: map<string, Session>, id: string, now: int, window: int)
    requires id in sessions
    ensures var p := Rules.Prune(sessions[id], now - window);
      && (|p.counts| == 0 && now - p.lastSeen > window
          ==> SweptOne(sessions, id, now, window) == sessions[id := p] - {id})
      && (!(|p.counts| == 0 && now - p.lastSeen > window) ==> SweptOne(sessions, id, now, window) == sessions[id := p])
  {
    hide Rules.Prune;
  }

  ghost function PartlySwept(sessions: map<string, Session>, ids: set<string>, now: int, window: int)
    : map<string, Session>
  {
    map id | id in sessions && (id in ids || !Idle(Rules.Prune(sessions[id], now - window), now, window))
      :: if id in ids then sessions[id] else Rules.Prune(sessions[id], now - window)
  }

  lemma {:induction false} PartlySweptEnds(sessions: map<string, Session>, now: int, window: int)
    ensures PartlySwept(sessions, sessions.Keys, now, window) == sessions
    ensures PartlySwept(sessions, {}, now, window) == SweepSessions(sessions, now, window)
  {
    hide Rules.Prune, Idle;
  }

  lemma {:induction false} PartlySweptStep(sessions: map<string, Session>, ids: set<string>, id: string,
                                                 now: int, window: int)
    requires id in ids && ids <= sessions.Keys
    ensures id in PartlySwept(sessions, ids, now, window)
    ensures PartlySwept(sessions, ids - {id}, now, window)
         == SweptOne(PartlySwept(sessions, ids, now, window), id, now, window)
  {
    hide Rules.Prune, Idle;
  }
}
