/** How far apart one source can be accepted twice, for the same query or for another. */
module AntiFraudPairs {
  import opened Prelude
  import opened TimedMarks
  import opened AntiFraudRules
  import opened AntiFraudReference
  import opened AntiFraudSafety
  import opened AntiFraudKeys
  import opened AntiFraudEntropy
  import opened Witness

  /**
   The rules' demand on a gap: for the same query the contribution window; for another one nothing, unless
   a session may have only one query at a time and must wait for its window or its block to be over.
   */
  predicate GapAllowed(c: Config, same: bool, gap: int) {
    if same then gap >= c.contributionWindow
    else c.maxUniqueQueriesPerSession >= 2 || gap > c.sessionEntropyWindow || gap >= c.sessionBlockDuration
  }

  lemma {:induction false} OtherQuerySpaced(c: Config, reqs: seq<Request>, i: nat, j: nat)
    requires Monotone(reqs) && i < j < |reqs|
    requires reqs[i].session == reqs[j].session && reqs[i].query != reqs[j].query
    requires History(c, reqs)[i].outcome == Accepted && History(c, reqs)[j].outcome == Accepted
    ensures GapAllowed(c, false, reqs[j].now - reqs[i].now)
  {
    hide Run, Window, Recent, RefOutcome;
    var log := History(c, reqs);
    var id, cutoff := reqs[j].session, reqs[j].now - c.sessionEntropyWindow;
    Explained(c, reqs, j);
    AcceptedAdmissible(c, log[..j], reqs[j]);
    if t :| i < t < j && log[t].req.session == id && log[t].outcome == EntropyExceeded {
      if reqs[j].now < reqs[t].now + c.sessionBlockDuration {
        TripBlocksLater(c, reqs, t, j);
      }
    } else if cutoff <= reqs[i].now {
      assert log[..j][i] == log[i];
      WindowHolds(log[..j], id, i);
      InRecent(Window(log[..j], id), SessionEvent(reqs[i].now, reqs[i].query), cutoff);
      assert |{reqs[i].query, reqs[j].query}| == 2;
      SubsetCard({reqs[i].query, reqs[j].query}, Recent(Window(log[..j], id), cutoff) + {reqs[j].query});
    }
  }

  /** One source is accepted twice only with an allowed gap in between. */
  lemma {:induction false} SourceSpaced(c: Config, reqs: seq<Request>, i: nat, j: nat)
    requires Monotone(reqs) && i < j < |reqs|
    requires reqs[i].session == reqs[j].session
    requires History(c, reqs)[i].outcome == Accepted && History(c, reqs)[j].outcome == Accepted
    ensures GapAllowed(c, reqs[i].query == reqs[j].query, reqs[j].now - reqs[i].now)
  {
    hide Run;
    if reqs[i].query == reqs[j].query {
      ContributionSpacing(c, reqs, i, j);
    } else {
      OtherQuerySpaced(c, reqs, i, j);
    }
  }

  // ----- two acceptances in a row

  /** Two requests of one session, the second `gap` later and from ip `again`. */
  function Repeat(q: string, q': string, t: int, again: string, gap: int): seq<Request> {
    [Request(IP, SESSION, None, q, t), Request(again, SESSION, None, q', t + gap)]
  }

  /** The cap has expired or is for another query, and the counter knows nothing of the second request's ip. */
  predicate Spread(c: Config, q: string, q': string, t: int, again: string, gap: int) {
    && gap >= 0
    && (if q == q' then gap >= c.contributionWindow
        else c.maxUniqueQueriesPerSession >= 2 || gap > c.sessionEntropyWindow)
    && Fresh(t, again, gap)
  }

  predicate Fresh(t: int, again: string, gap: int) {
    again != "" && '|' !in again && (again != IP || Minute(t + gap) != Minute(t))
  }

  lemma {:induction false} FirstAccepted(c: Config, q: string, t: int)
    requires ValidConfig(c) && q != ""
    ensures RefOutcome(c, [], Request(IP, SESSION, None, q, t)) == Accepted
  {
    hide CapKeys, Minute, CountedIn, Window;
    EmptyLog(IP, Minute(t), SESSION);
    assert Recent([], t - c.sessionEntropyWindow) + {q} == {q};
  }

  lemma {:induction false} EmptyLog(ip: string, minute: int, id: string)
    ensures CountedIn([], ip, minute) == 0 && Window([], id) == []
  {
  }

  lemma {:induction false} CountedOnce(e: Entry, ip: string, minute: int)
    requires e.req.ip != ip || Minute(e.req.now) != minute
    ensures CountedIn([e], ip, minute) == 0
  {
    hide Minute;
    assert [e][..0] == [];
  }

  lemma {:induction false} WindowOnce(e: Entry)
    requires e.req.session == SESSION && e.outcome == Accepted
    ensures Window([e], SESSION) == [SessionEvent(e.req.now, e.req.query)]
  {
    assert [e][..0] == [];
  }

  lemma {:induction false} RecentOnce(e: SessionEvent, cutoff: int, query: string)
    ensures Recent([e], cutoff) + {query}
         == if cutoff <= e.at && e.query != query then {e.query, query} else {query}
  {
    assert e in [e];
  }

  lemma {:induction false} CapFree(c: Config, log: seq<Entry>, r: Request)
    requires BarFreeIds(r)
    requires forall i :: 0 <= i < |log| ==>
      BarFreeIds(log[i].req) && (log[i].req.query == r.query ==> r.now - log[i].req.now >= c.contributionWindow)
    ensures !AnyCovered(c, log, CapKeys(r), r.now)
  {
    hide CapKeys, BarFreeIds, ShareIdentity, AnyCovered;
    CoverIsConflict(c, log, r);
  }

  lemma {:induction false} WitnessIdsBarFree()
    ensures '|' !in IP && '|' !in OTHER_IP && '|' !in SESSION && IP != "" && SESSION != ""
  {
  }

  /** What decides about a second request of the session, right after an accepted first one. */
  lemma {:induction false} SecondDecided(c: Config, q: string, t: int, r: Request)
    requires ValidConfig(c) && q != "" && r.query != "" && r.session == SESSION && r.user == None && r.now >= t
    requires Fresh(t, r.ip, r.now - t)
    requires r.query == q ==> r.now - t >= c.contributionWindow
    ensures var both := r.query != q && r.now - t <= c.sessionEntropyWindow;
      RefOutcome(c, [Entry(Request(IP, SESSION, None, q, t), Accepted)], r)
      == if both && c.maxUniqueQueriesPerSession < 2 then EntropyExceeded else Accepted
  {
    hide CapKeys, Minute, CountedIn, Window, Recent, AnyCovered, Covered;
    var first := Request(IP, SESSION, None, q, t);
    var log := [Entry(first, Accepted)];
    MarksMean(c, log, r);
    CountedOnce(log[0], r.ip, Minute(r.now));
    WindowOnce(log[0]);
    RecentOnce(SessionEvent(t, q), r.now - c.sessionEntropyWindow, r.query);
    WitnessIdsBarFree();
    CapFree(c, log, r);
    if r.query != q { assert |{q, r.query}| == 2; }
  }

  lemma {:induction false} RepeatRun(c: Config, q: string, q': string, t: int, again: string, gap: int)
    requires ValidConfig(c) && q != "" && q' != "" && Spread(c, q, q', t, again, gap)
    ensures var reqs := Repeat(q, q', t, again, gap);
      && Monotone(reqs)
      && History(c, reqs) == [Entry(reqs[0], Accepted), Entry(reqs[1], Accepted)]
      && Window(History(c, reqs), SESSION) == [SessionEvent(t, q), SessionEvent(t + gap, q')]
  {
    hide RefOutcome, Run, Fresh;
    var reqs, log := Repeat(q, q', t, again, gap), History(c, Repeat(q, q', t, again, gap));
    Explained(c, reqs, 0);
    Explained(c, reqs, 1);
    assert log[..0] == [];
    FirstAccepted(c, q, t);
    assert log[..1] == [Entry(reqs[0], Accepted)];
    SecondDecided(c, q, t, reqs[1]);
    WindowOnce(log[0]);
  }

  // ----- or with a trip of the session in between, which empties its window

  function Interrupt(q: string, q': string, trip: string, t: int, gap: int): seq<Request> {
    [Request(IP, SESSION, None, q, t), Request(OTHER_IP, SESSION, None, trip, t),
     Request(IP, SESSION, None, q', t + gap)]
  }

  lemma {:induction false} ThirdAccepted(c: Config, q: string, q': string, trip: string, t: int, gap: int)
    requires ValidConfig(c) && q' != "" && q != q' && trip != q'
    requires gap >= c.sessionBlockDuration && Minute(t + gap) != Minute(t)
    ensures var reqs := Interrupt(q, q', trip, t, gap);
      RefOutcome(c, [Entry(reqs[0], Accepted), Entry(reqs[1], EntropyExceeded)], reqs[2]) == Accepted
  {
    hide CapKeys, Minute, Recent, AnyCovered, Covered, CountedIn, Window;
    var reqs := Interrupt(q, q', trip, t, gap);
    var log, r := [Entry(reqs[0], Accepted), Entry(reqs[1], EntropyExceeded)], reqs[2];
    Apart();
    assert log == [log[0]] + [log[1]];
    MarksMean(c, log, r);
    CountedOnce(log[0], IP, Minute(r.now));
    TablesAppend([log[0]], log[1], IP, Minute(r.now), SESSION);
    WitnessIdsBarFree();
    CapFree(c, log, r);
    NoneRecent(r.now - c.sessionEntropyWindow);
    assert {} + {q'} == {q'};
  }

  lemma {:induction false} InterruptRun(c: Config, q: string, q': string, trip: string, t: int, gap: int)
    requires ValidConfig(c) && q != "" && q' != "" && trip != "" && q != q' && trip != q && trip != q'
    requires c.maxUniqueQueriesPerSession == 1
    requires gap >= c.sessionBlockDuration && Minute(t + gap) != Minute(t)
    ensures var reqs := Interrupt(q, q', trip, t, gap);
      && Monotone(reqs)
      && History(c, reqs)
         == [Entry(reqs[0], Accepted), Entry(reqs[1], EntropyExceeded), Entry(reqs[2], Accepted)]
  {
    hide RefOutcome, Run, Minute;
    var reqs := Interrupt(q, q', trip, t, gap);
    var log := History(c, reqs);
    Apart();
    Explained(c, reqs, 0);
    Explained(c, reqs, 1);
    Explained(c, reqs, 2);
    assert log[..0] == [];
    FirstAccepted(c, q, t);
    assert log[..1] == [Entry(reqs[0], Accepted)];
    SecondDecided(c, q, t, reqs[1]);
    assert log[..2] == [Entry(reqs[0], Accepted), Entry(reqs[1], EntropyExceeded)];
    ThirdAccepted(c, q, q', trip, t, gap);
  }
}
