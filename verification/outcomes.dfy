/** What becomes of a delivery, read off the deliveries before it and their results, in the events' own fields. */
module Outcomes {
  import opened Prelude
  import opened Domain
  import opened Ingest
  import opened OneVote
  import Dedup
  import Normalizer
  import Text
  import Rules = AntiFraudRules
  import Safety = AntiFraudSafety
  import Keys = AntiFraudKeys
  import Verdicts = AntiFraudVerdicts

  // ----- the evaluator's log is the part of the deliveries that got that far

  function RulesEntry(s: Setup, e: Entry): Rules.Entry
    requires Judged(s, e)
  {
    var evt := e.delivery.evt;
    Rules.Entry(
      Rules.Request(evt.ipHash, evt.sessionIDHash, evt.userIDHash, QueryOf(s, e.delivery).value, e.delivery.now),
      if e.result == Ingested then Rules.Accepted else e.result.outcome)
  }

  predicate Proper(s: Setup, e: Entry) { Judged(s, e) && e.result != Refused(Rules.Accepted) }

  /** `h` consists of the judged entries of `log`, in order; `f` says where they are. */
  ghost predicate Mirrors(s: Setup, log: seq<Entry>, h: seq<Rules.Entry>, f: seq<int>) {
    && |f| == |h|
    && (forall k :: 0 <= k < |f| ==>
          0 <= f[k] < |log| && Proper(s, log[f[k]]) && h[k] == RulesEntry(s, log[f[k]]))
    && (forall k, l :: 0 <= k < l < |f| ==> f[k] < f[l])
    && (forall i :: 0 <= i < |log| && (log[i].result.Refused? || log[i].result == Ingested) ==> i in f)
  }

  lemma {:induction false} HandleJudges(s: Setup, st: State, d: Delivery)
    ensures var r := Handle(s, st, d).1;
      && (r.Refused? || r == Ingested <==> Judged(s, Entry(d, r)))
      && r != Refused(Rules.Accepted)
      && (Judged(s, Entry(d, r)) ==>
            var req := RulesEntry(s, Entry(d, r)).req;
            && RequestIn(s, Entry(d, r)) == req
            && Rules.Step(s.rules, st.fraud, req).1 == RulesEntry(s, Entry(d, r)).outcome)
  {
    hide Normalizer.Normalized, Rules.Step, Rules.Run;
  }

  lemma {:induction false} MirrorsAppend(s: Setup, log: seq<Entry>, h: seq<Rules.Entry>, f: seq<int>, e: Entry)
    requires Mirrors(s, log, h, f)
    ensures Proper(s, e) ==> Mirrors(s, log + [e], h + [RulesEntry(s, e)], f + [|log|])
    ensures !(e.result.Refused? || e.result == Ingested) ==> Mirrors(s, log + [e], h, f)
  {
    hide Judged, RulesEntry;
    if Proper(s, e) {
      var f' := f + [|log|];
      assert f'[|f|] == |log|;
      forall i | 0 <= i < |log| && i in f ensures i in f' {}
    }
  }

  lemma {:induction false} RunMirrors(s: Setup, ds: seq<Delivery>) returns (f: seq<int>)
    ensures var (st, log) := Run(s, ds);
      && Mirrors(s, log, Safety.History(s.rules, Asked(s, log)), f)
      && st.fraud == Rules.Run(s.rules, Asked(s, log)).0
  {
    hide Handle, Judged, RequestIn, RulesEntry, Rules.Step, Rules.Run, Asked, Votes, Run, Mirrors;
    if ds == [] {
      NothingProcessed(s);
      EmptyRun(s);
      f := [];
      NothingMirrors(s);
    } else {
      var n := |ds| - 1;
      f := RunMirrors(s, ds[..n]);
      var (st, log) := Run(s, ds[..n]);
      var (st', r) := Handle(s, st, ds[n]);
      var e := Entry(ds[n], r);
      assert ds == ds[..n] + [ds[n]];
      RunAppend(s, ds[..n], ds[n]);
      LogAppend(s, log, e);
      HandleCases(s, st, ds[n]);
      HandleJudges(s, st, ds[n]);
      MirrorsAppend(s, log, Safety.History(s.rules, Asked(s, log)), f, e);
      if Judged(s, e) {
        RulesRunAppend(s.rules, Asked(s, log), RequestIn(s, e));
        EntryOf(s, e, RequestIn(s, e), Rules.Step(s.rules, st.fraud, RequestIn(s, e)).1);
        f := f + [|log|];
      } else {
        assert Asked(s, log + [e]) == Asked(s, log);
      }
    }
  }

  lemma {:induction false} EntryOf(s: Setup, e: Entry, req: Rules.Request, o: Rules.Outcome)
    requires Judged(s, e) && RulesEntry(s, e).req == req && RulesEntry(s, e).outcome == o
    ensures RulesEntry(s, e) == Rules.Entry(req, o)
  {
  }

  lemma {:induction false} NothingMirrors(s: Setup)
    ensures Mirrors(s, [], [], [])
  {
  }

  // ----- the evaluator's conditions on its log are conditions on the deliveries

  ghost predicate LimitTripped(s: Setup, log: seq<Entry>, d: Delivery) {
    exists i :: 0 <= i < |log| && log[i].result == Refused(Rules.RateLimited)
                && log[i].delivery.evt.ipHash == d.evt.ipHash
                && d.now - log[i].delivery.now < s.rules.ipBlockDuration
  }

  ghost predicate EntropyTripped(s: Setup, log: seq<Entry>, d: Delivery) {
    exists i :: 0 <= i < |log| && log[i].result == Refused(Rules.EntropyExceeded)
                && log[i].delivery.evt.sessionIDHash == d.evt.sessionIDHash
                && d.now - log[i].delivery.now < s.rules.sessionBlockDuration
  }

  ghost function CountedWith(log: seq<Entry>, d: Delivery): set<int> {
    set i | 0 <= i < |log| && log[i].delivery.evt.ipHash == d.evt.ipHash
            && Rules.Minute(log[i].delivery.now) == Rules.Minute(d.now)
            && log[i].result in {Refused(Rules.RateLimited), Refused(Rules.Capped), Refused(Rules.EntropyExceeded),
                                 Ingested}
  }

  ghost predicate CappedBy(s: Setup, log: seq<Entry>, d: Delivery) {
    exists i :: 0 <= i < |log| && log[i].result in {Ingested, Refused(Rules.EntropyExceeded)}
                && d.now - log[i].delivery.now < s.rules.contributionWindow
                && QueryOf(s, log[i].delivery) == QueryOf(s, d) && SameSource(log[i].delivery.evt, d.evt)
  }

  ghost predicate Listed(log: seq<Entry>, d: Delivery, i: int)
    requires 0 <= i < |log|
  {
    && log[i].result == Ingested && log[i].delivery.evt.sessionIDHash == d.evt.sessionIDHash
    && (forall k :: i < k < |log| && log[k].delivery.evt.sessionIDHash == d.evt.sessionIDHash
                    ==> log[k].result != Refused(Rules.EntropyExceeded))
  }

  /** The queries ingested for the session within the entropy window, since its last trip. */
  ghost function ListedWith(s: Setup, log: seq<Entry>, d: Delivery): set<Option<string>> {
    set i | 0 <= i < |log| && Listed(log, d, i) && d.now - log[i].delivery.now <= s.rules.sessionEntropyWindow
      :: QueryOf(s, log[i].delivery)
  }

  /** The request `d` makes of the evaluator. */
  function RequestFor(s: Setup, d: Delivery): Rules.Request
    requires QueryOf(s, d).Some?
  {
    Rules.Request(d.evt.ipHash, d.evt.sessionIDHash, d.evt.userIDHash, QueryOf(s, d).value, d.now)
  }

  lemma {:induction false} TripsCarry(s: Setup, log: seq<Entry>, h: seq<Rules.Entry>, f: seq<int>, d: Delivery)
    requires Mirrors(s, log, h, f)
    ensures Safety.LimitTrippedWithin(s.rules, h, d.evt.ipHash, d.now) <==> LimitTripped(s, log, d)
    ensures Safety.EntropyTrippedWithin(s.rules, h, d.evt.sessionIDHash, d.now) <==> EntropyTripped(s, log, d)
  {
    hide QueryOf;
    if i :| 0 <= i < |log| && log[i].result == Refused(Rules.RateLimited)
            && log[i].delivery.evt.ipHash == d.evt.ipHash
            && d.now - log[i].delivery.now < s.rules.ipBlockDuration {
      var k :| 0 <= k < |f| && f[k] == i;
      assert h[k].outcome == Rules.RateLimited;
    }
    if i :| 0 <= i < |log| && log[i].result == Refused(Rules.EntropyExceeded)
            && log[i].delivery.evt.sessionIDHash == d.evt.sessionIDHash
            && d.now - log[i].delivery.now < s.rules.sessionBlockDuration {
      var k :| 0 <= k < |f| && f[k] == i;
      assert h[k].outcome == Rules.EntropyExceeded;
    }
  }

  lemma {:induction false} Pick<T>(a: set<T>) returns (x: T)
    requires a != {}
    ensures x in a
  {
    x :| x in a;
  }

  lemma {:induction false} ImageCard(a: set<int>, f: seq<int>)
    requires forall k :: k in a ==> 0 <= k < |f|
    requires forall k, l :: 0 <= k < l < |f| ==> f[k] < f[l]
    ensures |set k | k in a :: f[k]| == |a|
    decreases |a|
  {
    var image := set l | l in a :: f[l];
    if a != {} {
      var k := Pick(a);
      var rest := a - {k};
      ImageCard(rest, f);
      assert image == (set l | l in rest :: f[l]) + {f[k]};
    } else {
      assert image == {};
    }
  }

  lemma {:induction false} CountsCarry(s: Setup, log: seq<Entry>, h: seq<Rules.Entry>, f: seq<int>, d: Delivery)
    requires Mirrors(s, log, h, f)
    ensures |Verdicts.CountedAt(h, d.evt.ipHash, Rules.Minute(d.now))| == |CountedWith(log, d)|
  {
    hide QueryOf, Rules.Minute;
    var counted := Verdicts.CountedAt(h, d.evt.ipHash, Rules.Minute(d.now));
    ImageCard(counted, f);
    forall i | i in CountedWith(log, d) ensures i in set k | k in counted :: f[k] {
      var k :| 0 <= k < |f| && f[k] == i;
      assert k in counted;
    }
    assert CountedWith(log, d) == set k | k in counted :: f[k];
  }

  lemma {:induction false} ConflictsCarry(s: Setup, log: seq<Entry>, h: seq<Rules.Entry>, f: seq<int>, d: Delivery)
    requires Mirrors(s, log, h, f) && QueryOf(s, d).Some?
    requires Text.Lawful(s.alphabet) && !s.alphabet.alnum('|')
    ensures Verdicts.Conflicts(s.rules, h, RequestFor(s, d)) <==> CappedBy(s, log, d)
  {
    hide Normalizer.Normalized, Keys.KeysMeet, SameSource, Safety.ShareIdentity;
    forall k | 0 <= k < |h|
      ensures Keys.KeysMeet(h[k].req, RequestFor(s, d))
              <==> QueryOf(s, log[f[k]].delivery) == QueryOf(s, d) && SameSource(log[f[k]].delivery.evt, d.evt)
    {
      MeetCarries(s, log[f[k]], d);
    }
    if i :| 0 <= i < |log| && log[i].result in {Ingested, Refused(Rules.EntropyExceeded)}
            && d.now - log[i].delivery.now < s.rules.contributionWindow
            && QueryOf(s, log[i].delivery) == QueryOf(s, d) && SameSource(log[i].delivery.evt, d.evt) {
      var k :| 0 <= k < |f| && f[k] == i;
      assert h[k].outcome in {Rules.Accepted, Rules.EntropyExceeded};
    }
  }

  lemma {:induction false} MeetCarries(s: Setup, e: Entry, d: Delivery)
    requires Judged(s, e) && QueryOf(s, d).Some? && Text.Lawful(s.alphabet) && !s.alphabet.alnum('|')
    ensures Keys.KeysMeet(RulesEntry(s, e).req, RequestFor(s, d))
            <==> QueryOf(s, e.delivery) == QueryOf(s, d) && SameSource(e.delivery.evt, d.evt)
  {
    hide Normalizer.Normalized, Keys.KeysMeet, Text.Lawful;
    Normalizer.NormalizedChars(s.alphabet, e.delivery.stops, e.delivery.evt.queryRaw);
    Normalizer.NormalizedChars(s.alphabet, d.stops, d.evt.queryRaw);
    Keys.KeysMeetIff(RulesEntry(s, e).req, RequestFor(s, d));
  }

  lemma {:induction false} ListedCarries(
    s: Setup, log: seq<Entry>, h: seq<Rules.Entry>, f: seq<int>, d: Delivery, k: nat)
    requires Mirrors(s, log, h, f) && k < |h|
    ensures Verdicts.StillListed(h, d.evt.sessionIDHash, k) <==> Listed(log, d, f[k])
  {
    hide QueryOf;
    assert forall l :: 0 <= l < k ==> f[l] < f[k];
    forall i | 0 <= i < |log| && log[i].result == Refused(Rules.EntropyExceeded)
      ensures exists l :: 0 <= l < |f| && f[l] == i && h[l].outcome == Rules.EntropyExceeded
    {
      var l :| 0 <= l < |f| && f[l] == i;
      assert h[l].outcome == Rules.EntropyExceeded;
    }
    if Listed(log, d, f[k]) {
      forall l | k < l < |h| && h[l].req.session == d.evt.sessionIDHash
        ensures h[l].outcome != Rules.EntropyExceeded
      {
        assert f[k] < f[l];
      }
    }
  }

  lemma {:induction false} ListsCarry(s: Setup, log: seq<Entry>, h: seq<Rules.Entry>, f: seq<int>, d: Delivery)
    requires Mirrors(s, log, h, f)
    ensures (set q | q in Verdicts.ListedSince(h, d.evt.sessionIDHash, d.now - s.rules.sessionEntropyWindow) :: Some(q))
         == ListedWith(s, log, d)
  {
    hide QueryOf, Verdicts.StillListed, Listed;
    var id, since := d.evt.sessionIDHash, d.now - s.rules.sessionEntropyWindow;
    var a := set q | q in Verdicts.ListedSince(h, id, since) :: Some(q);
    forall k: nat | k < |h| ensures Verdicts.StillListed(h, id, k) <==> Listed(log, d, f[k]) {
      ListedCarries(s, log, h, f, d, k);
    }
    forall q | q in a ensures q in ListedWith(s, log, d) {
      var k :| 0 <= k < |h| && Verdicts.StillListed(h, id, k) && since <= h[k].req.now && Some(h[k].req.query) == q;
      assert Listed(log, d, f[k]);
    }
    forall q | q in ListedWith(s, log, d) ensures q in a {
      var i :| 0 <= i < |log| && Listed(log, d, i) && d.now - log[i].delivery.now <= s.rules.sessionEntropyWindow
               && QueryOf(s, log[i].delivery) == q;
      ListedIngested(log, d, i);
      var k :| 0 <= k < |f| && f[k] == i;
      assert Verdicts.StillListed(h, id, k);
    }
  }

  lemma {:induction false} ListsCount(s: Setup, log: seq<Entry>, h: seq<Rules.Entry>, f: seq<int>, d: Delivery)
    requires Mirrors(s, log, h, f) && QueryOf(s, d).Some?
    ensures var r := RequestFor(s, d);
      |Verdicts.ListedSince(h, r.session, r.now - s.rules.sessionEntropyWindow) + {r.query}|
      == |ListedWith(s, log, d) + {QueryOf(s, d)}|
  {
    hide QueryOf, Mirrors, ListedWith, Verdicts.ListedSince;
    var r := RequestFor(s, d);
    var a := Verdicts.ListedSince(h, d.evt.sessionIDHash, d.now - s.rules.sessionEntropyWindow);
    ListsCarry(s, log, h, f, d);
    var listed := set q | q in a :: Some(q);
    assert listed == ListedWith(s, log, d);
    SomeCard(a + {r.query});
    assert (set q | q in a + {r.query} :: Some(q)) == listed + {Some(r.query)};
    assert Some(r.query) == QueryOf(s, d);
  }

  lemma {:induction false} ListedIngested(log: seq<Entry>, d: Delivery, i: nat)
    requires i < |log| && Listed(log, d, i)
    ensures log[i].result == Ingested
  {
  }

  lemma {:induction false} SomeCard(a: set<string>)
    ensures |set q | q in a :: Some(q)| == |a|
  {
    if a != {} {
      var q :| q in a;
      SomeCard(a - {q});
      assert (set x | x in a :: Some(x)) == (set x | x in a - {q} :: Some(x)) + {Some(q)};
    }
  }

  // ----- hence what becomes of a delivery

  ghost predicate SeenBefore(s: Setup, log: seq<Entry>, d: Delivery) {
    d.evt.eventID != ""
    && exists i :: 0 <= i < |log| && log[i].delivery.evt.eventID == d.evt.eventID && log[i].result != Duplicate
                   && d.now - log[i].delivery.now < s.ttl
  }

  /** The result a delivery must have, given the deliveries before it and their results. */
  ghost function ResultFor(s: Setup, log: seq<Entry>, d: Delivery): Result {
    if SeenBefore(s, log, d) then Duplicate
    else if |Text.Join(Normalizer.Keep(Normalizer.Words(s.alphabet, d.evt.queryRaw), d.stops))| < 2 then InvalidQuery
    else if d.evt.ipHash == "" || d.evt.sessionIDHash == "" then Refused(Rules.MissingIdentifiers)
    else if s.rules.maxRequestsPerMinutePerIP <= 0 || s.rules.ipBlockDuration <= 0 || s.rules.contributionWindow <= 0
            || s.rules.maxUniqueQueriesPerSession <= 0 || s.rules.sessionEntropyWindow <= 0
            || s.rules.sessionBlockDuration <= 0
    then Refused(Rules.InvalidConfig)
    else if LimitTripped(s, log, d) then Refused(Rules.IPBlocked)
    else if EntropyTripped(s, log, d) then Refused(Rules.SessionBlocked)
    else if |CountedWith(log, d)| >= s.rules.maxRequestsPerMinutePerIP then Refused(Rules.RateLimited)
    else if CappedBy(s, log, d) then Refused(Rules.Capped)
    else if |ListedWith(s, log, d) + {QueryOf(s, d)}| > s.rules.maxUniqueQueriesPerSession
    then Refused(Rules.EntropyExceeded)
    else Ingested
  }

  lemma {:induction false} JudgedExact(s: Setup, ds: seq<Delivery>, d: Delivery)
    requires Monotone(ds + [d]) && Text.Lawful(s.alphabet) && !s.alphabet.alnum('|')
    requires QueryOf(s, d).Some? && !SeenBefore(s, Run(s, ds).1, d)
    ensures var (st, log) := Run(s, ds);
      var o := Verdicts.Verdict(s.rules, Safety.History(s.rules, Asked(s, log)), RequestFor(s, d));
      Handle(s, st, d).1 == if o == Rules.Accepted then Ingested else Refused(o)
  {
    hide Normalizer.Normalized, Text.Lawful, Rules.Step, Rules.Run, Run, Handle, Verdicts.Verdict, Asked, Mirrors;
    var (st, log) := Run(s, ds);
    var f := RunMirrors(s, ds);
    DuplicateExact(s, ds, d);
    var reqs, r := Asked(s, log), RequestFor(s, d);
    RulesRunAppend(s.rules, reqs, r);
    AskedInOrder(s, ds, d);
    Verdicts.VerdictExact(s.rules, reqs + [r], |reqs|);
    HandleFresh(s, st, d);
  }

  lemma {:induction false} HandleFresh(s: Setup, st: State, d: Delivery)
    requires QueryOf(s, d).Some? && Handle(s, st, d).1 != Duplicate
    ensures var o := Rules.Step(s.rules, st.fraud, RequestFor(s, d)).1;
      Handle(s, st, d).1 == if o == Rules.Accepted then Ingested else Refused(o)
  {
    hide Normalizer.Normalized, Rules.Step;
  }

  lemma {:induction false} AskedInOrder(s: Setup, ds: seq<Delivery>, d: Delivery)
    requires Monotone(ds + [d]) && QueryOf(s, d).Some?
    ensures Rules.Monotone(Asked(s, Run(s, ds).1) + [RequestFor(s, d)])
  {
    hide Normalizer.Normalized, Asked, Run;
    MonotonePrefix(ds, d);
    var log := Run(s, ds).1;
    AskedMonotone(s, log);
    var reqs := Asked(s, log);
    forall i | 0 <= i < |reqs| ensures reqs[i].now <= d.now {
      assert reqs[i] in reqs;
    }
  }

  /**
   What becomes of a delivery is decided by the deliveries before it and their results: by the events' own
   ids, identifiers and queries, the instants of their handling and the settings.
   */
  lemma {:induction false} ResultExact(s: Setup, ds: seq<Delivery>, d: Delivery)
    requires Monotone(ds + [d]) && Text.Lawful(s.alphabet) && !s.alphabet.alnum('|')
    ensures var (st, log) := Run(s, ds); Handle(s, st, d).1 == ResultFor(s, log, d)
  {
    hide Normalizer.Normalized, Text.Lawful, Rules.Step, Rules.Run, Run, Handle, Asked, Mirrors, LimitTripped,
         EntropyTripped, CountedWith, CappedBy, ListedWith, SeenBefore, Verdicts.CountedAt, Verdicts.Conflicts,
         Verdicts.ListedSince, Safety.LimitTrippedWithin, Safety.EntropyTrippedWithin, Rules.Minute;
    var (st, log) := Run(s, ds);
    DuplicateShown(s, ds, d);
    AcceptedLength(s, d);
    if !SeenBefore(s, log, d) {
      if QueryOf(s, d) == None {
        HandleInvalid(s, st, d);
      } else {
        JudgedExact(s, ds, d);
        QueryLong(s, d);
        var f := RunMirrors(s, ds);
        var h := Safety.History(s.rules, Asked(s, log));
        TripsCarry(s, log, h, f, d);
        CountsCarry(s, log, h, f, d);
        ConflictsCarry(s, log, h, f, d);
        ListsCount(s, log, h, f, d);
      }
    }
  }

  lemma {:induction false} DuplicateShown(s: Setup, ds: seq<Delivery>, d: Delivery)
    requires Monotone(ds + [d])
    ensures Handle(s, Run(s, ds).0, d).1 == Duplicate <==> SeenBefore(s, Run(s, ds).1, d)
  {
    hide Handle, Run;
    DuplicateExact(s, ds, d);
  }

  lemma {:induction false} HandleInvalid(s: Setup, st: State, d: Delivery)
    requires QueryOf(s, d) == None && Handle(s, st, d).1 != Duplicate
    ensures Handle(s, st, d).1 == InvalidQuery
  {
    hide Normalizer.Normalized, Rules.Step;
  }

  lemma {:induction false} AcceptedLength(s: Setup, d: Delivery)
    ensures QueryOf(s, d).Some?
            <==> |Text.Join(Normalizer.Keep(Normalizer.Words(s.alphabet, d.evt.queryRaw), d.stops))| >= 2
  {
  }

  lemma {:induction false} QueryLong(s: Setup, d: Delivery)
    requires QueryOf(s, d).Some?
    ensures QueryOf(s, d).value != ""
  {
  }

  lemma {:induction false} SecondOfMilli(now: int)
    ensures UnixMilli(now) / 1000 == now / 1_000_000_000
  {
  }

  /**
   What is ingested is filed once, with weight one, under the event's own second; without a stamp of its own
   of at least a second, under the handler's clock or, before that is a second past the epoch, the engine's.
   Nothing else is filed.
   */
  lemma {:induction false} FiledExact(s: Setup, st: State, d: Delivery)
    ensures var (st', r) := Handle(s, st, d);
      if r != Ingested then st'.added == st.added
      else
        && |st'.added| == |st.added| + 1 && st'.added[..|st.added|] == st.added
        && var e := st'.added[|st.added|];
           && Some(e.query) == Normalizer.Normalized(s.alphabet, d.stops, d.evt.queryRaw) && e.score == 1
           && if d.evt.ingestedAtMS >= 1000 then 1000 * e.sec <= d.evt.ingestedAtMS < 1000 * (e.sec + 1)
              else if d.evt.ingestedAtMS <= 0 && d.now >= 1_000_000_000 then
                1_000_000_000 * e.sec <= d.now < 1_000_000_000 * (e.sec + 1)
              else 1_000_000_000 * e.sec <= d.wall < 1_000_000_000 * (e.sec + 1)
  {
    hide Normalizer.Normalized, Rules.Step, Dedup.SeenStep;
    SecondOfMilli(d.now);
    if QueryOf(s, d).Some? { QueryLong(s, d); }
  }
}
