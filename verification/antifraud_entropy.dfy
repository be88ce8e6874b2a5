/** The session entropy rule over whole runs, with the exact configurations for which it holds. */
module AntiFraudEntropy {
  import opened Prelude
  import opened TimedMarks
  import opened AntiFraudRules
  import opened AntiFraudReference
  import opened AntiFraudSafety
  import opened AntiFraudKeys
  import opened Witness

  predicate CreditedIn(e: Entry, id: string, lo: int, hi: int) {
    e.outcome == Accepted && e.req.session == id && lo <= e.req.now <= hi
  }

  /** The distinct queries accepted for a session in a closed interval. */
  function QueriesIn(log: seq<Entry>, id: string, lo: int, hi: int): set<string> {
    set e | e in log && CreditedIn(e, id, lo, hi) :: e.req.query
  }

  /** An accepted request stays in its session's window until the session trips. */
  lemma {:induction false} WindowHolds(log: seq<Entry>, id: string, i: nat)
    requires i < |log| && log[i].outcome == Accepted && log[i].req.session == id
    requires forall t :: i < t < |log| && log[t].req.session == id ==> log[t].outcome != EntropyExceeded
    ensures SessionEvent(log[i].req.now, log[i].req.query) in Window(log, id)
  {
    var n := |log| - 1;
    if i < n {
      assert log[..n][i] == log[i];
      WindowHolds(log[..n], id, i);
    }
  }

  /** No trip separates two accepted requests of a session that are an entropy window apart or less. */
  lemma {:induction false} NoTripBetween(c: Config, reqs: seq<Request>, i: nat, t: nat, j: nat)
    requires Monotone(reqs) && i < t < j < |reqs|
    requires c.sessionBlockDuration > c.sessionEntropyWindow
    requires reqs[t].session == reqs[j].session
    requires reqs[j].now <= reqs[i].now + c.sessionEntropyWindow
    requires History(c, reqs)[j].outcome == Accepted
    ensures History(c, reqs)[t].outcome != EntropyExceeded
  {
    hide Run, CountedIn, Window, Recent, AnyCovered, Covered, Minute, CapKeys, RefOutcome;
    var log := History(c, reqs);
    Explained(c, reqs, j);
    assert Admissible(c, reqs[j]) by { AcceptedAdmissible(c, log[..j], reqs[j]); }
    BlocksExact(c, reqs, j);
    if log[t].outcome == EntropyExceeded {
      TripBlocksLater(c, reqs, t, j);
    }
  }

  lemma {:induction false} AcceptedAdmissible(c: Config, log: seq<Entry>, r: Request)
    requires RefOutcome(c, log, r) == Accepted
    ensures Admissible(c, r)
    ensures |Recent(Window(log, r.session), r.now - c.sessionEntropyWindow) + {r.query}| <= c.maxUniqueQueriesPerSession
  {
  }

  lemma {:induction false} TripBlocksLater(c: Config, reqs: seq<Request>, t: nat, j: nat)
    requires Monotone(reqs) && t < j < |reqs| && Admissible(c, reqs[j])
    requires reqs[t].session == reqs[j].session && reqs[j].now < reqs[t].now + c.sessionBlockDuration
    requires History(c, reqs)[t].outcome == EntropyExceeded
    ensures History(c, reqs)[j].outcome != Accepted
  {
    hide Run;
    BlocksExact(c, reqs, j);
    assert History(c, reqs)[..j][t] == History(c, reqs)[t];
  }

  lemma {:induction false} AtAcceptance(c: Config, reqs: seq<Request>, lo: int)
    requires Monotone(reqs) && reqs != []
    requires c.sessionBlockDuration > c.sessionEntropyWindow
    requires var j := |reqs| - 1; CreditedIn(History(c, reqs)[j], reqs[j].session, lo, lo + c.sessionEntropyWindow)
    ensures |QueriesIn(History(c, reqs), reqs[|reqs| - 1].session, lo, lo + c.sessionEntropyWindow)|
            <= c.maxUniqueQueriesPerSession
  {
    hide Run, Window, Recent, RefOutcome;
    var log := History(c, reqs);
    var j := |reqs| - 1;
    var id, hi := reqs[j].session, lo + c.sessionEntropyWindow;
    Explained(c, reqs, j);
    AcceptedAdmissible(c, log[..j], reqs[j]);
    var seen := Recent(Window(log[..j], id), reqs[j].now - c.sessionEntropyWindow) + {reqs[j].query};
    forall q | q in QueriesIn(log, id, lo, hi) ensures q in seen {
      var e :| e in log && CreditedIn(e, id, lo, hi) && e.req.query == q;
      var i :| 0 <= i < |log| && log[i] == e;
      if i < j {
        forall t | i < t < j && log[..j][t].req.session == id ensures log[..j][t].outcome != EntropyExceeded {
          NoTripBetween(c, reqs, i, t, j);
        }
        WindowHolds(log[..j], id, i);
        InRecent(Window(log[..j], id), SessionEvent(e.req.now, q), reqs[j].now - c.sessionEntropyWindow);
      }
    }
    SubsetCard(QueriesIn(log, id, lo, hi), seen);
  }

  lemma {:induction false} InRecent(w: seq<SessionEvent>, e: SessionEvent, cutoff: int)
    requires e in w && cutoff <= e.at
    ensures e.query in Recent(w, cutoff)
  {
  }

  lemma {:induction false} SubsetCard<T>(a: set<T>, b: set<T>)
    requires a <= b
    ensures |a| <= |b|
  {
    assert b == a + (b - a);
  }

  /** The bound: a closed interval as long as the entropy window accepts at most Max distinct queries. */
  lemma {:induction false} EntropyBound(c: Config, reqs: seq<Request>, id: string, lo: int)
    requires Monotone(reqs) && ValidConfig(c)
    requires c.sessionBlockDuration > c.sessionEntropyWindow
    ensures |QueriesIn(History(c, reqs), id, lo, lo + c.sessionEntropyWindow)| <= c.maxUniqueQueriesPerSession
  {
    hide Run;
    var log, hi := History(c, reqs), lo + c.sessionEntropyWindow;
    if reqs == [] {
      assert QueriesIn(log, id, lo, hi) == {};
    } else {
      var n := |reqs| - 1;
      if CreditedIn(log[n], id, lo, hi) {
        AtAcceptance(c, reqs, lo);
      } else {
        RunPrefix(c, reqs, n);
        EntropyBound(c, reqs[..n], id, lo);
        assert log == log[..n] + [log[n]];
        assert QueriesIn(log, id, lo, hi) == QueriesIn(log[..n], id, lo, hi);
      }
    }
  }

  // ----- the bound fails exactly when a block can end inside the window it followed

  ghost predicate EntropyBounded(c: Config) {
    forall reqs, id, lo, hi :: Monotone(reqs) && hi == lo + c.sessionEntropyWindow
      ==> |QueriesIn(History(c, reqs), id, lo, hi)| <= c.maxUniqueQueriesPerSession
  }

  function Name(k: nat): string { Numbered(QUERY, k) }

  /** Fresh ips and fresh queries on one session, the last one as the session block ends. */
  function Flood(c: Config, k: nat): seq<Request> {
    seq(k, i requires 0 <= i < k =>
      Request(Numbered(IP, i), SESSION, None, Name(i),
              if i <= c.maxUniqueQueriesPerSession then 0 else c.sessionBlockDuration))
  }

  lemma {:induction false} FloodMonotone(c: Config, k: nat)
    requires ValidConfig(c)
    ensures Monotone(Flood(c, k))
  {
  }

  /** Nothing but the entropy rule and the session block can stop a flood request. */
  lemma {:induction false} FloodReaches(c: Config, k: nat, log: seq<Entry>)
    requires ValidConfig(c) && |log| == k && Requests(log) == Flood(c, k)
    requires forall i :: 0 <= i < k ==> log[i].outcome != RateLimited
    ensures var r := Flood(c, k + 1)[k];
      && Admissible(c, r)
      && !Covered(LimitMarks(log), c.ipBlockDuration, r.ip, r.now)
      && CountedIn(log, r.ip, Minute(r.now)) == 0
      && !AnyCovered(c, log, CapKeys(r), r.now)
  {
    hide CapKeys, Minute, Numbered;
    var r := Flood(c, k + 1)[k];
    NumberedShape(IP, k);
    NumberedShape(QUERY, k);
    forall i | 0 <= i < k
      ensures log[i].req.ip != r.ip && Separable(log[i].req, r) && log[i].req.query != r.query
    {
      NumberedShape(QUERY, i);
      NumberedDiffer(IP, i, k);
      NumberedDiffer(QUERY, i, k);
      assert Requests(log)[i] == Flood(c, k)[i];
    }
    MarksMean(c, log, r);
    NeverCounted(log, r.ip, Minute(r.now));
    CoverIsConflict(c, log, r);
  }

  function Names(k: nat): set<string> { set i: nat | i < k :: Name(i) }

  lemma {:induction false} NamesCard(k: nat)
    ensures |Names(k)| == k
  {
    hide Numbered;
    if k > 0 {
      NamesCard(k - 1);
      forall i: nat | i < k - 1 ensures Name(i) != Name(k - 1) { NumberedDiffer(QUERY, i, k - 1); }
      assert Names(k) == Names(k - 1) + {Name(k - 1)};
    }
  }

  /** The first Max requests are accepted and make up the session's window. */
  lemma {:induction false} FloodFills(c: Config, k: nat)
    requires ValidConfig(c) && k <= c.maxUniqueQueriesPerSession
    ensures var log := History(c, Flood(c, k));
      && (forall i :: 0 <= i < k ==> log[i].outcome == Accepted)
      && Recent(Window(log, SESSION), -c.sessionEntropyWindow) == Names(k)
  {
    hide Run, RefOutcome, CapKeys, Minute, Numbered, Recent;
    if k == 0 {
      NoneRecent(-c.sessionEntropyWindow);
    } else {
      FloodFills(c, k - 1);
      FloodStep(c, k - 1);
      FloodAccepts(c, k - 1, History(c, Flood(c, k - 1)));
    }
  }

  /** With k < Max names in the window the next one is accepted and joins them. */
  lemma {:induction false} FloodAccepts(c: Config, k: nat, log: seq<Entry>)
    requires ValidConfig(c) && |log| == k < c.maxUniqueQueriesPerSession && Requests(log) == Flood(c, k)
    requires forall i :: 0 <= i < k ==> log[i].outcome == Accepted
    requires Recent(Window(log, SESSION), -c.sessionEntropyWindow) == Names(k)
    ensures var r := Flood(c, k + 1)[k];
      && RefOutcome(c, log, r) == Accepted
      && Recent(Window(log + [Entry(r, Accepted)], SESSION), -c.sessionEntropyWindow) == Names(k + 1)
  {
    hide CapKeys, Minute, Numbered, Recent, RefOutcome;
    var r := Flood(c, k + 1)[k];
    FloodDecides(c, k, log);
    NamesCard(k + 1);
    assert Names(k + 1) == Names(k) + {Name(k)};
    var log' := log + [Entry(r, Accepted)];
    assert log'[..k] == log;
    RecentAppend(Window(log, SESSION), SessionEvent(0, Name(k)), -c.sessionEntropyWindow);
  }

  lemma {:induction false} RecentAppend(w: seq<SessionEvent>, e: SessionEvent, cutoff: int)
    requires cutoff <= e.at
    ensures Recent(w + [e], cutoff) == Recent(w, cutoff) + {e.query}
  {
  }

  /** Peeling the last flood request off a run. */
  lemma {:induction false} FloodStep(c: Config, k: nat)
    requires ValidConfig(c)
    ensures var log := History(c, Flood(c, k));
      && Requests(log) == Flood(c, k)
      && History(c, Flood(c, k + 1)) == log + [Entry(Flood(c, k + 1)[k], RefOutcome(c, log, Flood(c, k + 1)[k]))]
  {
    hide Run, RefOutcome, Numbered;
    FloodMonotone(c, k + 1);
    Explained(c, Flood(c, k + 1), k);
    RunPrefix(c, Flood(c, k + 1), k);
    assert Flood(c, k + 1)[..k] == Flood(c, k);
  }

  lemma {:induction false} FloodDecides(c: Config, k: nat, log: seq<Entry>)
    requires ValidConfig(c) && |log| == k && Requests(log) == Flood(c, k)
    requires forall i :: 0 <= i < k ==> log[i].outcome != RateLimited
    ensures var r := Flood(c, k + 1)[k];
      RefOutcome(c, log, r)
      == if EntropyTrippedWithin(c, log, SESSION, r.now) then SessionBlocked
         else if |Recent(Window(log, SESSION), r.now - c.sessionEntropyWindow) + {r.query}|
                 > c.maxUniqueQueriesPerSession
         then EntropyExceeded
         else Accepted
  {
    hide CapKeys, Minute, Numbered, Recent, Window, CountedIn, AnyCovered, Covered, EntropyTrippedWithin;
    FloodReaches(c, k, log);
    MarksMean(c, log, Flood(c, k + 1)[k]);
  }

  /** The request after Max accepted ones trips the rule, and the one as the block ends starts afresh. */
  lemma {:induction false} FloodTrips(c: Config)
    requires ValidConfig(c)
    ensures var m := c.maxUniqueQueriesPerSession;
      var log := History(c, Flood(c, m + 1));
      && Requests(log) == Flood(c, m + 1)
      && (forall i :: 0 <= i < m ==> log[i].outcome == Accepted)
      && log[m].outcome == EntropyExceeded
  {
    hide Run, RefOutcome, Numbered, Recent, Window, EntropyTrippedWithin;
    var m := c.maxUniqueQueriesPerSession;
    var log := History(c, Flood(c, m));
    FloodFills(c, m);
    FloodStep(c, m);
    FloodStep(c, m + 1);
    NoTripYet(c, log, SESSION, 0);
    FloodDecides(c, m, log);
    NamesCard(m + 1);
    assert Names(m + 1) == Names(m) + {Name(m)};
  }

  lemma {:induction false} NoTripYet(c: Config, log: seq<Entry>, id: string, u: int)
    requires forall i :: 0 <= i < |log| ==> log[i].outcome == Accepted
    ensures !EntropyTrippedWithin(c, log, id, u)
  {
  }

  lemma {:induction false} FloodResumes(c: Config)
    requires ValidConfig(c)
    ensures var m := c.maxUniqueQueriesPerSession;
      var log := History(c, Flood(c, m + 2));
      && Requests(log) == Flood(c, m + 2)
      && (forall i :: 0 <= i < m ==> log[i].outcome == Accepted)
      && log[m].outcome == EntropyExceeded && log[m + 1].outcome == Accepted
  {
    hide Run, RefOutcome, Numbered, Recent;
    var m := c.maxUniqueQueriesPerSession;
    FloodTrips(c);
    FloodStep(c, m + 1);
    FloodStep(c, m + 2);
    var log := History(c, Flood(c, m + 1));
    FloodDecides(c, m + 1, log);
    assert log[m].req == Flood(c, m + 1)[m] by { assert Requests(log)[m] == Flood(c, m + 1)[m]; }
    assert Window(log, SESSION) == [];
    NoneRecent(c.sessionBlockDuration - c.sessionEntropyWindow);
    FloodLater(c, log);
  }

  /** Every trip of the flood is exactly one block duration old when its last request arrives. */
  lemma {:induction false} FloodLater(c: Config, log: seq<Entry>)
    requires ValidConfig(c) && Requests(log) == Flood(c, c.maxUniqueQueriesPerSession + 1)
    ensures !EntropyTrippedWithin(c, log, SESSION, c.sessionBlockDuration)
  {
    hide Numbered;
    forall i | 0 <= i < |log| ensures log[i].req.now == 0 {
      assert Requests(log)[i] == Flood(c, c.maxUniqueQueriesPerSession + 1)[i];
    }
  }

  /** A block no longer than the window lets Max + 1 distinct queries into one closed window. */
  lemma {:induction false} FloodBreaksBound(c: Config)
    requires ValidConfig(c) && c.sessionBlockDuration <= c.sessionEntropyWindow
    ensures var m := c.maxUniqueQueriesPerSession;
      && Monotone(Flood(c, m + 2))
      && |QueriesIn(History(c, Flood(c, m + 2)), SESSION, 0, c.sessionEntropyWindow)| == m + 1
  {
    hide Run, QueriesIn, Numbered;
    FloodMonotone(c, c.maxUniqueQueriesPerSession + 2);
    FloodResumes(c);
    FloodQueries(c, History(c, Flood(c, c.maxUniqueQueriesPerSession + 2)));
  }

  lemma {:induction false} NoneRecent(cutoff: int)
    ensures Recent([], cutoff) == {}
  {
  }

  lemma {:induction false} FloodQueries(c: Config, log: seq<Entry>)
    requires ValidConfig(c) && c.sessionBlockDuration <= c.sessionEntropyWindow
    requires var m := c.maxUniqueQueriesPerSession;
      && |log| == m + 2 && Requests(log) == Flood(c, m + 2)
      && (forall i :: 0 <= i < m ==> log[i].outcome == Accepted)
      && log[m].outcome == EntropyExceeded && log[m + 1].outcome == Accepted
    ensures |QueriesIn(log, SESSION, 0, c.sessionEntropyWindow)| == c.maxUniqueQueriesPerSession + 1
  {
    hide Numbered;
    var m := c.maxUniqueQueriesPerSession;
    var found := QueriesIn(log, SESSION, 0, c.sessionEntropyWindow);
    forall i | 0 <= i < m + 2 ensures log[i].req == Flood(c, m + 2)[i] {
      assert Requests(log)[i] == Flood(c, m + 2)[i];
    }
    forall i: nat | i < m ensures Name(i) in found {
      assert log[i] in log && CreditedIn(log[i], SESSION, 0, c.sessionEntropyWindow);
    }
    assert log[m + 1] in log && CreditedIn(log[m + 1], SESSION, 0, c.sessionEntropyWindow);
    assert found == Names(m) + {Name(m + 1)};
    NamesCard(m);
    forall i: nat | i < m ensures Name(i) != Name(m + 1) { NumberedDiffer(QUERY, i, m + 1); }
  }

  /** The entropy bound holds over all runs if and only if blocks outlast the window. */
  lemma {:induction false} EntropyBoundExact(c: Config)
    requires ValidConfig(c)
    ensures EntropyBounded(c) <==> c.sessionBlockDuration > c.sessionEntropyWindow
  {
    hide Run, Flood;
    if c.sessionBlockDuration > c.sessionEntropyWindow {
      forall reqs, id, lo, hi | Monotone(reqs) && hi == lo + c.sessionEntropyWindow
        ensures |QueriesIn(History(c, reqs), id, lo, hi)| <= c.maxUniqueQueriesPerSession
      {
        EntropyBound(c, reqs, id, lo);
      }
    } else {
      FloodBreaksBound(c);
      var reqs := Flood(c, c.maxUniqueQueriesPerSession + 2);
      assert |QueriesIn(History(c, reqs), SESSION, 0, c.sessionEntropyWindow)| > c.maxUniqueQueriesPerSession;
    }
  }
}
