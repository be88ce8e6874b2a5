/** The per-session window: what `counts` means and what pruning keeps. */
module AntiFraudSession {
  import opened Prelude
  import opened AntiFraudRules

  function Queries(events: seq<SessionEvent>): set<string> {
    set e | e in events :: e.query
  }

  function Occurrences(events: seq<SessionEvent>, query: string): nat {
    if events == [] then 0
    else (if events[0].query == query then 1 else 0) + Occurrences(events[1..], query)
  }

  /** The multiset of the listed queries, as a Go counting map. */
  function Tally(events: seq<SessionEvent>): map<string, int> {
    map query | query in Queries(events) :: Occurrences(events, query)
  }

  ghost predicate Tallied(s: Session) { s.counts == Tally(s.events) }

  ghost predicate AllTallied(st: State) {
    forall id :: id in st.sessions ==> Tallied(st.sessions[id])
  }

  lemma {:induction false} OccursIffListed(events: seq<SessionEvent>, query: string)
    ensures Occurrences(events, query) > 0 <==> query in Queries(events)
  {
    if events != [] {
      OccursIffListed(events[1..], query);
      assert events == [events[0]] + events[1..];
    }
  }

  lemma {:induction false} OccurrencesAppend(events: seq<SessionEvent>, e: SessionEvent, query: string)
    ensures Occurrences(events + [e], query) == Occurrences(events, query) + if e.query == query then 1 else 0
  {
    if events == [] {
      assert events + [e] == [e];
    } else {
      assert (events + [e])[1..] == events[1..] + [e];
      OccurrencesAppend(events[1..], e, query);
    }
  }

  lemma {:induction false} TallyAppend(events: seq<SessionEvent>, e: SessionEvent)
    ensures Tally(events + [e]) == Tally(events)[e.query := Get(Tally(events), e.query) + 1]
  {
    assert Queries(events + [e]) == Queries(events) + {e.query};
    forall query | query in Queries(events + [e])
      ensures Tally(events + [e])[query] == Tally(events)[e.query := Get(Tally(events), e.query) + 1][query]
    {
      OccurrencesAppend(events, e, query);
      OccursIffListed(events, query);
    }
  }

  lemma {:induction false} OccurrencesFirst(events: seq<SessionEvent>, query: string)
    requires events != []
    ensures Occurrences(events, query)
         == (if events[0].query == query then 1 else 0) + Occurrences(events[1..], query)
  {
  }

  lemma {:induction false} TallyDropFirst(events: seq<SessionEvent>)
    requires events != []
    ensures Tally(events[1..]) == Decrement(Tally(events), events[0].query)
  {
    hide Occurrences;
    var q := events[0].query;
    forall query ensures Occurrences(events, query) == (if q == query then 1 else 0) + Occurrences(events[1..], query) {
      OccurrencesFirst(events, query);
    }
    assert events == [events[0]] + events[1..];
    assert Queries(events) == {q} + Queries(events[1..]);
    OccursIffListed(events[1..], q);
    forall query | query in Queries(events[1..])
      ensures query != q ==> Tally(events)[query] == Tally(events[1..])[query]
    {
    }
  }

  /** Pruning cuts a prefix of strictly older events and stops at the first one young enough. */
  lemma {:induction false} PruneCutsPrefix(s: Session, cutoff: int) returns (k: nat)
    requires Tallied(s)
    ensures Tallied(Prune(s, cutoff)) && Prune(s, cutoff).lastSeen == s.lastSeen
    ensures k <= |s.events| && Prune(s, cutoff).events == s.events[k..]
    ensures forall i :: 0 <= i < k ==> s.events[i].at < cutoff
    ensures k < |s.events| ==> cutoff <= s.events[k].at
    decreases |s.events|
  {
    hide Tally, Decrement;
    if s.events == [] || cutoff <= s.events[0].at {
      k := 0;
    } else {
      TallyDropFirst(s.events);
      var s' := Session(s.events[1..], Decrement(s.counts, s.events[0].query), s.lastSeen);
      var k' := PruneCutsPrefix(s', cutoff);
      k := k' + 1;
      assert s.events[1..][k'..] == s.events[k..];
      forall i | 0 <= i < k ensures s.events[i].at < cutoff {
        if i > 0 { assert s'.events[i - 1] == s.events[i]; }
      }
    }
  }

  lemma {:induction false} TallySize(events: seq<SessionEvent>)
    ensures |Tally(events)| == |Queries(events)|
  {
    assert Tally(events).Keys == Queries(events);
  }

  lemma {:induction false} RecordTallied(s: Session, e: SessionEvent)
    requires Tallied(s)
    ensures Tallied(Record(s, e))
  {
    TallyAppend(s.events, e);
  }

  lemma {:induction false} ObserveTallied(c: Config, s: Session, r: Request)
    requires Tallied(s)
    ensures Tallied(Observe(c, s, r))
  {
    var k := PruneCutsPrefix(s.(lastSeen := r.now), r.now - c.sessionEntropyWindow);
    RecordTallied(Prune(s.(lastSeen := r.now), r.now - c.sessionEntropyWindow), SessionEvent(r.now, r.query));
  }

  lemma {:induction false} CleanupTallied(c: Config, st: State, now: int)
    requires AllTallied(st)
    ensures AllTallied(Cleanup(c, st, now))
  {
    hide Prune, Tally;
    var st' := Cleanup(c, st, now);
    forall id | id in st'.sessions ensures Tallied(st'.sessions[id]) {
      var k := PruneCutsPrefix(st.sessions[id], now - c.sessionEntropyWindow);
    }
  }

  /** Counting a request touches nothing but the counters. */
  lemma {:induction false} CountKeeps(st: State, r: Request)
    ensures var st' := CountRequest(st, r);
      && st'.contributionSeen == st.contributionSeen
      && st'.sessions == st.sessions
      && st'.ipBlockedUntil == st.ipBlockedUntil
      && st'.sessionBlockedUntil == st.sessionBlockedUntil
  {
  }

  /** Whatever the clock does, `counts` stays exactly the multiset of the event list. */
  lemma {:induction false} StepTallied(c: Config, st: State, r: Request)
    requires AllTallied(st)
    ensures AllTallied(Step(c, st, r).0)
  {
    if Admissible(c, r) {
      var st1 := Cleanup(c, st, r.now);
      CleanupTallied(c, st, r.now);
      var s := SessionOf(st1.sessions, r.session);
      ObserveTallied(c, s, r);
      AdmitTallied(c, st1, CapKeys(r), Observe(c, s, r), r);
    }
  }

  lemma {:induction false} AdmitTallied(c: Config, st: State, keys: set<string>, s: Session, r: Request)
    requires AllTallied(st) && Tallied(s)
    ensures AllTallied(Admit(c, st, keys, s, r).0)
  {
    hide CountRequest, Tallied;
    CountKeeps(st, r);
  }

  lemma {:induction false} RunTallied(c: Config, reqs: seq<Request>)
    ensures AllTallied(Run(c, reqs).0)
  {
    if reqs != [] {
      var n := |reqs| - 1;
      RunTallied(c, reqs[..n]);
      StepTallied(c, Run(c, reqs[..n]).0, reqs[n]);
    }
  }
}
