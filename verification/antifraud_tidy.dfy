/**
 A cross-rule invariant: when the contribution cap outlasts the entropy window, a session's list
 never repeats a query, so it is as short as the entropy rule allows distinct queries to be.
 */
module AntiFraudTidy {
  import opened Prelude
  import opened TimedMarks
  import opened AntiFraudRules
  import opened AntiFraudSession
  import opened AntiFraudReference
  import opened AntiFraudSafety
  import opened AntiFraudPairs
  import opened Witness

  ghost predicate Distinct(events: seq<SessionEvent>) {
    forall i, j :: 0 <= i < j < |events| ==> events[i].query != events[j].query
  }

  ghost predicate TidySession(c: Config, s: Session) {
    && Sorted(s.events)
    && Distinct(s.events)
    && |s.events| <= c.maxUniqueQueriesPerSession
    && (forall query :: query in s.counts ==> s.counts[query] == 1)
  }

  ghost predicate Tidy(c: Config, sessions: map<string, Session>) {
    forall id :: id in sessions ==> TidySession(c, sessions[id])
  }

  lemma {:induction false} DistinctOccurOnce(events: seq<SessionEvent>, query: string)
    requires Distinct(events)
    ensures Occurrences(events, query) <= 1
  {
    if events != [] {
      DistinctOccurOnce(events[1..], query);
      OccursIffListed(events[1..], query);
      forall e | e in events[1..] ensures e.query != events[0].query {
        var i :| 0 <= i < |events[1..]| && events[1..][i] == e;
        assert events[i + 1] == e;
      }
    }
  }

  lemma {:induction false} DistinctTally(s: Session)
    requires Tallied(s) && Distinct(s.events)
    ensures forall query :: query in s.counts ==> s.counts[query] == 1
  {
    forall query | query in s.counts ensures s.counts[query] == 1 {
      DistinctOccurOnce(s.events, query);
      OccursIffListed(s.events, query);
    }
  }

  lemma {:induction false} DistinctCard(events: seq<SessionEvent>)
    requires Distinct(events)
    ensures |Queries(events)| == |events|
  {
    if events == [] {
      assert Queries(events) == {};
    } else {
      var n := |events| - 1;
      DistinctCard(events[..n]);
      assert events == events[..n] + [events[n]];
      QueriesAppend(events[..n], events[n]);
      assert events[n].query !in Queries(events[..n]);
    }
  }

  lemma {:induction false} PruneTidy(c: Config, s: Session, cutoff: int)
    requires Tallied(s) && TidySession(c, s)
    ensures TidySession(c, Prune(s, cutoff)) && Tallied(Prune(s, cutoff))
    ensures forall e :: e in Prune(s, cutoff).events ==> e in s.events && cutoff <= e.at
  {
    hide Prune, Tally;
    var k := PruneCutsPrefix(s, cutoff);
    var p := Prune(s, cutoff);
    forall i | 0 <= i < |p.events| ensures p.events[i] in s.events && cutoff <= p.events[i].at {
      assert p.events[i] == s.events[k + i];
    }
    DistinctTally(p);
  }

  lemma {:induction false} CleanupTidy(c: Config, st: State, now: int)
    requires AllTallied(st) && Tidy(c, st.sessions)
    ensures Tidy(c, Cleanup(c, st, now).sessions)
  {
    hide Prune, Tallied, TidySession;
    var swept := Cleanup(c, st, now).sessions;
    forall id | id in swept ensures TidySession(c, swept[id]) {
      PruneTidy(c, st.sessions[id], now - c.sessionEntropyWindow);
    }
  }

  /** Whatever is in a session's window was accepted for that session. */
  lemma {:induction false} WindowFromLog(log: seq<Entry>, id: string, e: SessionEvent) returns (i: nat)
    requires e in Window(log, id)
    ensures i < |log| && log[i].outcome == Accepted && log[i].req.session == id
    ensures log[i].req.now == e.at && log[i].req.query == e.query
  {
    var n := |log| - 1;
    var last := SessionEvent(log[n].req.now, log[n].req.query);
    if log[n].req.session == id && log[n].outcome == Accepted && e == last {
      i := n;
    } else {
      i := WindowFromLog(log[..n], id, e);
    }
  }

  /** A request let past the cap repeats no query still listed for its session. */
  lemma {:induction false} UncappedIsNew(c: Config, log: seq<Entry>, r: Request, e: SessionEvent)
    requires !AnyCovered(c, log, CapKeys(r), r.now)
    requires e in Window(log, r.session) && r.now - c.contributionWindow < e.at
    ensures e.query != r.query
  {
    hide CapKeys, Window;
    var i := WindowFromLog(log, r.session, e);
    assert CapMarks(log)[i] == CapMark(log[i]);
    assert forall key :: key in CapKeys(log[i].req) ==> Covered(CapMarks(log), c.contributionWindow, key, r.now);
    if e.query == r.query {
      var key := SharedKey(log[i].req, r);
      assert false;
    }
  }

  lemma {:induction false} ObserveTidy(c: Config, s: Session, w: seq<SessionEvent>, r: Request)
    requires Tallied(s) && TidySession(c, s)
    requires forall e :: e in s.events ==> e.at <= r.now
    requires forall e :: e in s.events && r.now - c.sessionEntropyWindow <= e.at ==> e.query != r.query
    requires |Observe(c, s, r).counts| <= c.maxUniqueQueriesPerSession
    ensures TidySession(c, Observe(c, s, r))
  {
    hide Prune, Tally, Queries;
    var s1, cutoff, e := s.(lastSeen := r.now), r.now - c.sessionEntropyWindow, SessionEvent(r.now, r.query);
    PruneTidy(c, s1, cutoff);
    var p := Prune(s1, cutoff);
    RecordTallied(p, e);
    var s' := Record(p, e);
    assert Distinct(s'.events);
    assert Sorted(s'.events);
    DistinctTally(s');
    TallySize(s'.events);
    DistinctCard(s'.events);
  }

  lemma {:induction false} AdmitTidy(c: Config, st: State, log: seq<Entry>, r: Request, o: Outcome)
    requires ValidConfig(c) && Represents(c, st, log, r.now) && Tidy(c, st.sessions)
    requires c.sessionEntropyWindow < c.contributionWindow
    requires var s := SessionOf(st.sessions, r.session);
      o == Admit(c, st, CapKeys(r), Observe(c, s, r), r).1
    ensures Tidy(c, After(c, st, CapKeys(r), Observe(c, SessionOf(st.sessions, r.session), r), r, o).sessions)
  {
    hide Observe, CapKeys, TidySession, Represents, Active, AnyActive, AnyCovered, CountRequest, Window, WindowAgrees,
         Tallied, SessionOf, Recent;
    CountKeeps(st, r);
    var s := SessionOf(st.sessions, r.session);
    if o == Accepted {
      SessionTidy(c, st.sessions, r.session);
      LookupsAgree(c, st, log, r);
      SessionRepresented(c, st, log, r.session, r.now);
      ListedIsOld(c, s.events, log, r);
      ObserveTidy(c, s, Window(log, r.session), r);
    }
  }

  lemma {:induction false} SessionTidy(c: Config, sessions: map<string, Session>, id: string)
    requires Tidy(c, sessions) && c.maxUniqueQueriesPerSession >= 0
    ensures TidySession(c, SessionOf(sessions, id))
  {
  }

  lemma {:induction false} ListedIsOld(c: Config, events: seq<SessionEvent>, log: seq<Entry>, r: Request)
    requires WindowAgrees(events, Window(log, r.session), c.sessionEntropyWindow, r.now)
    requires !AnyCovered(c, log, CapKeys(r), r.now)
    requires c.sessionEntropyWindow < c.contributionWindow
    ensures forall e :: e in events ==> e.at <= r.now
    ensures forall e :: e in events && r.now - c.sessionEntropyWindow <= e.at ==> e.query != r.query
  {
    hide Window, CapKeys, AnyCovered;
    var w := Window(log, r.session);
    forall e | e in events
      ensures e in w && (r.now - c.sessionEntropyWindow <= e.at ==> e.query != r.query)
    {
      var i :| 0 <= i < |events| && events[i] == e;
      assert w[|w| - |events| + i] == e;
      if r.now - c.sessionEntropyWindow <= e.at {
        UncappedIsNew(c, log, r, e);
      }
    }
  }

  lemma {:induction false} StepTidy(c: Config, st: State, log: seq<Entry>, t: int, r: Request)
    requires Represents(c, st, log, t) && t <= r.now && Tidy(c, st.sessions)
    requires c.sessionEntropyWindow < c.contributionWindow
    ensures Tidy(c, Step(c, st, r).0.sessions)
  {
    hide Represents, Cleanup, Observe, CapKeys, Tidy, SessionOf, After, Decide, CountRequest, Active, AnyActive;
    if Admissible(c, r) {
      CleanupRepresents(c, st, log, t, r.now);
      assert AllTallied(st) by { RepresentsTallied(c, st, log, t); }
      CleanupTidy(c, st, r.now);
      AdmitTidy(c, Cleanup(c, st, r.now), log, r, Step(c, st, r).1);
    }
  }

  lemma {:induction false} RepresentsTallied(c: Config, st: State, log: seq<Entry>, t: int)
    requires Represents(c, st, log, t)
    ensures AllTallied(st)
  {
  }

  /** After any run every session's list is sorted, repeats no query and is at most Max long. */
  lemma {:induction false} RunTidy(c: Config, reqs: seq<Request>)
    requires Monotone(reqs) && c.sessionEntropyWindow < c.contributionWindow
    ensures Tidy(c, Run(c, reqs).0.sessions)
  {
    hide Step, Represents;
    if reqs != [] {
      var n := |reqs| - 1;
      RunTidy(c, reqs[..n]);
      RunRepresents(c, reqs[..n], reqs[n].now);
      StepTidy(c, Run(c, reqs[..n]).0, Run(c, reqs[..n]).1, reqs[n].now, reqs[n]);
    }
  }

  // ----- without the hypothesis the list does repeat queries

  lemma {:induction false} RepeatUntidy(c: Config)
    requires ValidConfig(c) && c.contributionWindow <= c.sessionEntropyWindow
    ensures var reqs := Repeat(QUERY, QUERY, 0, OTHER_IP, c.contributionWindow);
      Monotone(reqs) && !Tidy(c, Run(c, reqs).0.sessions)
  {
    hide Run, Window;
    var reqs := Repeat(QUERY, QUERY, 0, OTHER_IP, c.contributionWindow);
    var sessions, log := Run(c, reqs).0.sessions, History(c, reqs);
    Apart();
    RepeatRun(c, QUERY, QUERY, 0, OTHER_IP, c.contributionWindow);
    RunRepresents(c, reqs, c.contributionWindow);
    SessionRepresented(c, Run(c, reqs).0, log, SESSION, c.contributionWindow);
    var events := SessionOf(sessions, SESSION).events;
    var w := Window(log, SESSION);
    assert w[0].at == 0;
    assert |events| == |w|;
    assert events == w;
    assert events[0].query == events[1].query;
    assert SESSION in sessions;
  }

  /** The invariant holds over all runs if and only if the cap outlasts the entropy window. */
  lemma {:induction false} TidyExact(c: Config)
    requires ValidConfig(c)
    ensures (forall reqs :: Monotone(reqs) ==> Tidy(c, Run(c, reqs).0.sessions))
            <==> c.sessionEntropyWindow < c.contributionWindow
  {
    hide Run, Tidy;
    if c.sessionEntropyWindow < c.contributionWindow {
      forall reqs | Monotone(reqs) ensures Tidy(c, Run(c, reqs).0.sessions) {
        RunTidy(c, reqs);
      }
    } else {
      RepeatUntidy(c);
    }
  }
}
