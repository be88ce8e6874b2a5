/**
 Each verdict of a run, read off the earlier verdicts alone: no table, no window, no cleanup, and none of
 the notions the rules and their reference are written in.
 */
module AntiFraudVerdicts {
  import opened Prelude
  import opened TimedMarks
  import opened AntiFraudRules
  import opened AntiFraudSession
  import opened AntiFraudReference
  import opened AntiFraudSafety
  import opened AntiFraudKeys

  /** The requests of an ip that reached its counter within one minute. */
  ghost function CountedAt(log: seq<Entry>, ip: string, minute: int): set<int> {
    set i | 0 <= i < |log| && log[i].req.ip == ip && Minute(log[i].req.now) == minute
            && log[i].outcome in {RateLimited, Capped, EntropyExceeded, Accepted}
  }

  lemma {:induction false} CountedLast(log: seq<Entry>, ip: string, minute: int)
    requires log != []
    ensures var n := |log| - 1;
      CountedAt(log, ip, minute)
      == CountedAt(log[..n], ip, minute)
         + if Counts(log[n].outcome) && log[n].req.ip == ip && Minute(log[n].req.now) == minute then {n} else {}
  {
    hide Minute;
    var n := |log| - 1;
    assert forall i :: 0 <= i < n ==> log[..n][i] == log[i];
  }

  lemma {:induction false} CountedCard(log: seq<Entry>, ip: string, minute: int)
    ensures CountedIn(log, ip, minute) == |CountedAt(log, ip, minute)|
  {
    hide Minute;
    if log == [] {
      assert CountedAt(log, ip, minute) == {};
    } else {
      var n := |log| - 1;
      CountedCard(log[..n], ip, minute);
      CountedLast(log, ip, minute);
      assert n !in CountedAt(log[..n], ip, minute);
      hide CountedAt;
    }
  }

  /** An earlier request that consumed the cap within its window shares a key. */
  ghost predicate Conflicts(c: Config, log: seq<Entry>, r: Request) {
    exists i :: 0 <= i < |log| && log[i].outcome in {Accepted, EntropyExceeded}
                && r.now - log[i].req.now < c.contributionWindow && KeysMeet(log[i].req, r)
  }

  lemma {:induction false} CoveredMeets(c: Config, log: seq<Entry>, r: Request)
    ensures AnyCovered(c, log, CapKeys(r), r.now) <==> Conflicts(c, log, r)
  {
    hide CapKeys;
    var marks := CapMarks(log);
    if i :| 0 <= i < |log| && log[i].outcome in {Accepted, EntropyExceeded}
            && r.now - log[i].req.now < c.contributionWindow && KeysMeet(log[i].req, r) {
      var key :| key in CapKeys(log[i].req) && key in CapKeys(r);
      assert marks[i] == CapMark(log[i]);
      assert Covered(marks, c.contributionWindow, key, r.now);
    }
    if AnyCovered(c, log, CapKeys(r), r.now) {
      var key :| key in CapKeys(r) && Covered(marks, c.contributionWindow, key, r.now);
      var i :| 0 <= i < |marks| && key in marks[i].keys && r.now < marks[i].at + c.contributionWindow;
      assert marks[i] == CapMark(log[i]);
      assert KeysMeet(log[i].req, r);
    }
  }

  /** Accepted for the session, which has not tripped since. */
  ghost predicate StillListed(log: seq<Entry>, id: string, i: int)
    requires 0 <= i < |log|
  {
    && log[i].outcome == Accepted && log[i].req.session == id
    && (forall k :: i < k < |log| && log[k].req.session == id ==> log[k].outcome != EntropyExceeded)
  }

  lemma {:induction false} WindowLists(log: seq<Entry>, id: string, e: SessionEvent)
    ensures e in Window(log, id)
            <==> exists i :: 0 <= i < |log| && StillListed(log, id, i)
                             && e == SessionEvent(log[i].req.now, log[i].req.query)
  {
    if log != [] {
      var n := |log| - 1;
      WindowLists(log[..n], id, e);
      forall i | 0 <= i < n
        ensures StillListed(log, id, i)
                <==> StillListed(log[..n], id, i) && !(log[n].req.session == id && log[n].outcome == EntropyExceeded)
      {
        assert log[..n][i] == log[i];
      }
      if e in Window(log, id) && !(log[n].req.session == id && log[n].outcome == Accepted
                                   && e == SessionEvent(log[n].req.now, log[n].req.query)) {
        var i :| 0 <= i < n && StillListed(log[..n], id, i)
                 && e == SessionEvent(log[..n][i].req.now, log[..n][i].req.query);
        assert StillListed(log, id, i);
      }
      if log[n].req.session == id && log[n].outcome == Accepted { assert StillListed(log, id, n); }
    }
  }

  /** The queries accepted for a session since its last trip, from an instant on. */
  ghost function ListedSince(log: seq<Entry>, id: string, since: int): set<string> {
    set i | 0 <= i < |log| && StillListed(log, id, i) && since <= log[i].req.now :: log[i].req.query
  }

  lemma {:induction false} RecentLists(log: seq<Entry>, id: string, cutoff: int)
    ensures Recent(Window(log, id), cutoff) == ListedSince(log, id, cutoff)
  {
    hide Window, StillListed;
    forall query ensures query in Recent(Window(log, id), cutoff) <==> query in ListedSince(log, id, cutoff) {
      if query in Recent(Window(log, id), cutoff) {
        var e :| e in Window(log, id) && cutoff <= e.at && e.query == query;
        WindowLists(log, id, e);
      }
      if query in ListedSince(log, id, cutoff) {
        var i :| 0 <= i < |log| && StillListed(log, id, i) && cutoff <= log[i].req.now && log[i].req.query == query;
        WindowLists(log, id, SessionEvent(log[i].req.now, query));
      }
    }
  }

  /** The verdict that a log of earlier verdicts calls for. */
  ghost function Verdict(c: Config, log: seq<Entry>, r: Request): Outcome {
    if r.ip == "" || r.session == "" then MissingIdentifiers
    else if r.query == "" then EmptyQuery
    else if c.maxRequestsPerMinutePerIP <= 0 || c.ipBlockDuration <= 0 || c.contributionWindow <= 0
            || c.maxUniqueQueriesPerSession <= 0 || c.sessionEntropyWindow <= 0 || c.sessionBlockDuration <= 0
    then InvalidConfig
    else if LimitTrippedWithin(c, log, r.ip, r.now) then IPBlocked
    else if EntropyTrippedWithin(c, log, r.session, r.now) then SessionBlocked
    else if |CountedAt(log, r.ip, Minute(r.now))| >= c.maxRequestsPerMinutePerIP then RateLimited
    else if Conflicts(c, log, r) then Capped
    else if |ListedSince(log, r.session, r.now - c.sessionEntropyWindow) + {r.query}| > c.maxUniqueQueriesPerSession
    then EntropyExceeded
    else Accepted
  }

  lemma {:induction false} VerdictOn(c: Config, log: seq<Entry>, r: Request)
    ensures RefOutcome(c, log, r) == Verdict(c, log, r)
  {
    hide Minute, CountedIn, CountedAt, Window, Recent, ListedSince, Conflicts, CapKeys, AnyCovered, Covered,
         LimitTrippedWithin, EntropyTrippedWithin;
    MarksMean(c, log, r);
    CountedCard(log, r.ip, Minute(r.now));
    CoveredMeets(c, log, r);
    RecentLists(log, r.session, r.now - c.sessionEntropyWindow);
  }

  /** A verdict of a run is the one its earlier verdicts call for. */
  lemma {:induction false} VerdictExact(c: Config, reqs: seq<Request>, j: nat)
    requires Monotone(reqs) && j < |reqs|
    ensures var log := Run(c, reqs).1; log[j].outcome == Verdict(c, log[..j], reqs[j])
  {
    hide Run, Verdict, RefOutcome;
    Explained(c, reqs, j);
    VerdictOn(c, Run(c, reqs).1[..j], reqs[j]);
  }

  /** The keys a request is capped under, spelled out. */
  lemma {:induction false} CapKeysSpelled(r: Request, key: string)
    ensures key in CapKeys(r)
            <==> || key == "ip:" + r.ip + "|" + r.query
                 || key == "session:" + r.session + "|" + r.query
                 || (r.user.Some? && r.user.value != "" && key == "user:" + r.user.value + "|" + r.query)
  {
    OwnKeys(r);
  }

  /** From 1970 on `Minute` numbers the calendar minutes; before, it rounds whole seconds towards zero. */
  lemma {:induction false} MinuteExact(now: int)
    ensures now >= 0 ==> 60_000_000_000 * Minute(now) <= now < 60_000_000_000 * (Minute(now) + 1)
    ensures now < 0 ==>
      60_000_000_000 * (Minute(now) - 1) < now < 60_000_000_000 * Minute(now) + 1_000_000_000 <= 1_000_000_000
  {
  }

  // ----- what the tables hold

  /**
   A cleanup a minute or more after the last one keeps exactly what has not expired, and each session that
   was seen within the entropy window or has a recent query; any other does nothing.
   */
  lemma {:induction false} CleanupExact(c: Config, st: State, now: int)
    requires AllTallied(st)
    ensures var st' := Cleanup(c, st, now);
      && st'.counters == st.counters && st'.bucketMin == st.bucketMin
      && if st.lastCleanupAt.Some? && now - st.lastCleanupAt.value < 60_000_000_000 then st' == st
         else
           && st'.lastCleanupAt == Some(now)
           && Surviving(st'.ipBlockedUntil, st.ipBlockedUntil, now)
           && Surviving(st'.sessionBlockedUntil, st.sessionBlockedUntil, now)
           && Surviving(st'.contributionSeen, st.contributionSeen, now)
           && (forall id :: id in st'.sessions
                 <==> id in st.sessions
                      && (now - st.sessions[id].lastSeen <= c.sessionEntropyWindow
                          || exists e :: e in st.sessions[id].events && now - e.at <= c.sessionEntropyWindow))
           && (forall id :: id in st'.sessions ==> st'.sessions[id].lastSeen == st.sessions[id].lastSeen)
  {
    hide Prune, Tally, Unexpired;
    UnexpiredSurvive(st.ipBlockedUntil, now);
    UnexpiredSurvive(st.sessionBlockedUntil, now);
    UnexpiredSurvive(st.contributionSeen, now);
    forall id | id in st.sessions
      ensures Idle(Prune(st.sessions[id], now - c.sessionEntropyWindow), now, c.sessionEntropyWindow)
              <==> now - st.sessions[id].lastSeen > c.sessionEntropyWindow
                   && forall e :: e in st.sessions[id].events ==> now - e.at > c.sessionEntropyWindow
      ensures Prune(st.sessions[id], now - c.sessionEntropyWindow).lastSeen == st.sessions[id].lastSeen
    {
      IdleExact(st.sessions[id], now, c.sessionEntropyWindow);
    }
  }

  ghost predicate Surviving(m': map<string, int>, m: map<string, int>, now: int) {
    && (forall key :: key in m' <==> key in m && m[key] > now)
    && (forall key :: key in m' ==> m'[key] == m[key])
  }

  lemma {:induction false} UnexpiredSurvive(m: map<string, int>, now: int)
    ensures Surviving(Unexpired(m, now), m, now)
  {
  }

  lemma {:induction false} IdleExact(s: Session, now: int, window: int)
    requires Tallied(s)
    ensures Prune(s, now - window).lastSeen == s.lastSeen
    ensures Idle(Prune(s, now - window), now, window)
            <==> now - s.lastSeen > window && forall e :: e in s.events ==> now - e.at > window
  {
    hide Prune, Tally;
    var k := PruneCutsPrefix(s, now - window);
    var p := Prune(s, now - window);
    TallySize(p.events);
    if k < |s.events| {
      assert s.events[k] in s.events;
      assert p.events[0] == s.events[k];
      assert p.events[0].query in Queries(p.events);
    } else {
      assert Queries(p.events) == {};
      forall e | e in s.events ensures now - e.at > window {
        var i :| 0 <= i < |s.events| && s.events[i] == e;
      }
    }
  }

  /** A stored session was last seen at the latest request accepted for it. */
  lemma {:induction false} LastSeenExact(c: Config, reqs: seq<Request>, id: string) returns (i: nat)
    requires id in Run(c, reqs).0.sessions
    ensures var (st, log) := Run(c, reqs);
      && i < |log| && log[i].outcome == Accepted && log[i].req.session == id
      && st.sessions[id].lastSeen == log[i].req.now
      && forall k :: i < k < |log| && log[k].outcome == Accepted ==> log[k].req.session != id
  {
    hide Step;
    var n := |reqs| - 1;
    var (st, log) := Run(c, reqs[..n]);
    var (st', o) := Step(c, st, reqs[n]);
    RunTallied(c, reqs[..n]);
    StepLastSeen(c, st, reqs[n], id);
    if o == Accepted && reqs[n].session == id {
      i := n;
    } else {
      i := LastSeenExact(c, reqs[..n], id);
    }
  }

  lemma {:induction false} StepLastSeen(c: Config, st: State, r: Request, id: string)
    requires AllTallied(st) && id in Step(c, st, r).0.sessions
    ensures var (st', o) := Step(c, st, r);
      if o == Accepted && r.session == id then st'.sessions[id].lastSeen == r.now
      else id in st.sessions && st'.sessions[id].lastSeen == st.sessions[id].lastSeen
  {
    hide Cleanup, Observe, CapKeys, Admit, Tallied;
    CleanupExact(c, st, r.now);
    if Admissible(c, r) {
      var st1 := Cleanup(c, st, r.now);
      var s := SessionOf(st1.sessions, r.session);
      ObserveStamps(c, s, r);
      AdmitLastSeen(c, st1, CapKeys(r), Observe(c, s, r), r, id);
    }
  }

  lemma {:induction false} ObserveStamps(c: Config, s: Session, r: Request)
    ensures Observe(c, s, r).lastSeen == r.now
  {
    hide Prune;
    PruneKeepsStamp(s.(lastSeen := r.now), r.now - c.sessionEntropyWindow);
  }

  lemma {:induction false} PruneKeepsStamp(s: Session, cutoff: int)
    ensures Prune(s, cutoff).lastSeen == s.lastSeen
    decreases |s.events|
  {
    hide Decrement;
    if s.events != [] && s.events[0].at < cutoff {
      PruneKeepsStamp(Session(s.events[1..], Decrement(s.counts, s.events[0].query), s.lastSeen), cutoff);
    }
  }

  lemma {:induction false} AdmitLastSeen(c: Config, st: State, keys: set<string>, s: Session, r: Request, id: string)
    requires s.lastSeen == r.now && id in Admit(c, st, keys, s, r).0.sessions
    ensures var (st', o) := Admit(c, st, keys, s, r);
      if o == Accepted && r.session == id then st'.sessions[id].lastSeen == r.now
      else id in st.sessions && st'.sessions[id].lastSeen == st.sessions[id].lastSeen
  {
    hide AnyActive, Active, CountRequest;
    CountKeeps(st, r);
  }
}
