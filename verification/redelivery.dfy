/** How far apart two deliveries of one event must be for both to be counted. */
module Redelivery {
  import opened Prelude
  import opened Domain
  import opened Ingest
  import opened OneVote
  import Dedup
  import Normalizer
  import Rules = AntiFraudRules
  import Safety = AntiFraudSafety
  import Pairs = AntiFraudPairs
  import opened Witness

  /** Two deliveries of one event were both ingested. */
  ghost predicate CountedTwice(s: Setup, ds: seq<Delivery>, i: nat, j: nat) {
    && Monotone(ds) && i < j < |ds|
    && ds[i].evt == ds[j].evt && ds[i].evt.eventID != ""
    && Run(s, ds).1[i].result == Ingested && Run(s, ds).1[j].result == Ingested
  }

  /** The same, for an event with text `raw` met with the stop words `stops` first and `stops'` later. */
  ghost predicate CountedTwiceAs(
    s: Setup, ds: seq<Delivery>, i: nat, j: nat, raw: string, stops: set<string>, stops': set<string>)
  {
    && CountedTwice(s, ds, i, j)
    && ds[i].evt.queryRaw == raw && ds[i].stops == stops && ds[j].stops == stops'
  }

  function QueryUnder(s: Setup, raw: string, stops: set<string>): Option<string> {
    Normalizer.Normalized(s.alphabet, stops, raw)
  }

  /** An event counted twice was delivered a TTL apart. */
  lemma {:induction false} TTLApart(s: Setup, ds: seq<Delivery>, i: nat, j: nat)
    requires CountedTwice(s, ds, i, j)
    ensures ds[j].now - ds[i].now >= s.ttl
  {
    hide Handle, Run;
    var log := Run(s, ds).1;
    LogPrefix(s, ds, j);
    assert log[..j][i] == log[i];
    ResultAt(s, ds, j);
    var upTo := ds[..j] + [ds[j]];
    assert upTo == ds[..j + 1];
    DuplicateExact(s, ds[..j], ds[j]);
  }

  /** And with the gap the evaluator allows its source. */
  lemma {:induction false} GapWasAllowed(s: Setup, ds: seq<Delivery>, i: nat, j: nat)
    requires CountedTwice(s, ds, i, j)
    ensures var q, q' := QueryUnder(s, ds[i].evt.queryRaw, ds[i].stops), QueryUnder(s, ds[i].evt.queryRaw, ds[j].stops);
      q.Some? && q'.Some? && Pairs.GapAllowed(s.rules, q == q', ds[j].now - ds[i].now)
  {
    hide Handle, Run, VotesOf, Rules.Run, Pairs.GapAllowed, Normalizer.Normalized;
    var k, l := VotesAt(s, ds, i, j);
    var a, b := VoteIndices(s, ds, k, l);
    Pairs.SourceSpaced(s.rules, Asked(s, Run(s, ds).1), a, b);
  }

  // ----- runs that attain every allowed gap

  /** The dedup entries there are expire by `by`. */
  predicate ExpireBy(seen: map<string, int>, u: int) { forall key :: key in seen ==> seen[key] <= u }

  lemma {:induction false} Unmet(ttl: int, seen: map<string, int>, call: Dedup.Call, u: int)
    requires ExpireBy(seen, u) && (u <= call.now || call.key !in seen)
    ensures var (seen', hit) := Dedup.SeenStep(ttl, seen, call);
      && !hit && seen'.Keys <= seen.Keys + {call.key}
      && (call.now + ttl <= u ==> ExpireBy(seen', u))
  {
  }

  /** A further delivery that is no duplicate is a further call of the evaluator. */
  lemma {:induction false} Extend(s: Setup, ds: seq<Delivery>, reqs: seq<Rules.Request>, d: Delivery, q: string, u: int)
    requires QueryUnder(s, d.evt.queryRaw, d.stops) == Some(q)
    requires var seen := Run(s, ds).0.seen; ExpireBy(seen, u) && (u <= d.now || d.evt.eventID !in seen)
    requires Run(s, ds).0.fraud == Rules.Run(s.rules, reqs).0
    ensures var reqs' := reqs + [Rules.RequestOf(d.evt, q, d.now)];
      var o := Safety.History(s.rules, reqs')[|reqs|].outcome;
      var (st, log) := Run(s, ds + [d]);
      && st.fraud == Rules.Run(s.rules, reqs').0
      && log == Run(s, ds).1 + [Entry(d, if o == Rules.Accepted then Ingested else Refused(o))]
      && st.seen.Keys <= Run(s, ds).0.seen.Keys + {d.evt.eventID}
      && (d.now + s.ttl <= u ==> ExpireBy(st.seen, u))
  {
    hide Normalizer.Normalized, Rules.Step, Rules.Run, Run, Handle, Dedup.SeenStep, ExpireBy;
    Unmet(s.ttl, Run(s, ds).0.seen, Dedup.Call(d.evt.eventID, d.now), u);
    RunAppend(s, ds, d);
    FreshIsJudged(s, Run(s, ds).0, d);
    RulesRunAppend(s.rules, reqs, Rules.RequestOf(d.evt, q, d.now));
  }

  const T0: int := MINUTE - 1  // the last nanosecond of a minute

  function OneEvent(id: string, ip: string, raw: string): SearchEvent {
    SearchEvent(id, 1000, raw, ip, SESSION, None)
  }

  function At(evt: SearchEvent, now: int, stops: set<string>): Delivery { Delivery(evt, now, now, stops) }

  /** One event delivered twice. */
  function Twice(raw: string, stops: set<string>, stops': set<string>, gap: int): seq<Delivery> {
    var evt := OneEvent(EVENT_ID, IP, raw);
    [At(evt, T0, stops), At(evt, T0 + gap, stops')]
  }

  /** The same with an event of the session in between. */
  function Interrupted(raw: string, stops: set<string>, stops': set<string>, trip: string, gap: int): seq<Delivery> {
    var evt := OneEvent(EVENT_ID, IP, raw);
    [At(evt, T0, stops), At(OneEvent(OTHER_EVENT_ID, OTHER_IP, trip), T0, {}), At(evt, T0 + gap, stops')]
  }

  lemma {:induction false} NextMinute(gap: int)
    requires gap > 0
    ensures Rules.Minute(T0 + gap) != Rules.Minute(T0)
  {
  }

  lemma {:induction false} QueryNonEmpty(s: Setup, raw: string, stops: set<string>)
    ensures var q := QueryUnder(s, raw, stops); q.Some? ==> q.value != ""
  {
    hide Normalizer.Words, Normalizer.Keep;
  }

  lemma {:induction false} NothingYet(s: Setup)
    ensures Run(s, []) == (INITIAL, []) && Rules.Run(s.rules, []) == (Rules.INITIAL, [])
    ensures ExpireBy(INITIAL.seen, T0 + s.ttl)
  {
  }

  lemma {:induction false} TwiceIsCounted(
    s: Setup, raw: string, stops: set<string>, stops': set<string>, q: string, q': string, gap: int)
    requires Rules.ValidConfig(s.rules) && gap > 0 && gap >= s.ttl
    requires QueryUnder(s, raw, stops) == Some(q) && QueryUnder(s, raw, stops') == Some(q')
    requires Pairs.Spread(s.rules, q, q', T0, IP, gap)
    ensures CountedTwiceAs(s, Twice(raw, stops, stops', gap), 0, 1, raw, stops, stops')
  {
    hide Normalizer.Normalized, Rules.Run, Run, Pairs.Spread, ExpireBy;
    var ds := Twice(raw, stops, stops', gap);
    var reqs := Pairs.Repeat(q, q', T0, IP, gap);
    QueryNonEmpty(s, raw, stops);
    QueryNonEmpty(s, raw, stops');
    Pairs.RepeatRun(s.rules, q, q', T0, IP, gap);
    NothingYet(s);
    assert ds == [] + [ds[0]] + [ds[1]] && reqs == [] + [reqs[0]] + [reqs[1]];
    Extend(s, [], [], ds[0], q, T0 + s.ttl);
    Extend(s, [] + [ds[0]], [] + [reqs[0]], ds[1], q', T0 + s.ttl);
    Safety.RunPrefix(s.rules, reqs, 1);
    assert reqs[..1] == [] + [reqs[0]];
  }

  lemma {:induction false} InterruptedIsCounted(
    s: Setup, raw: string, stops: set<string>, stops': set<string>, trip: string,
    q: string, q': string, q'': string, gap: int)
    requires Rules.ValidConfig(s.rules) && gap > 0 && gap >= s.ttl
    requires QueryUnder(s, raw, stops) == Some(q) && QueryUnder(s, raw, stops') == Some(q')
    requires QueryUnder(s, trip, {}) == Some(q'') && q != q' && q'' != q && q'' != q'
    requires s.rules.maxUniqueQueriesPerSession == 1 && gap >= s.rules.sessionBlockDuration
    ensures CountedTwiceAs(s, Interrupted(raw, stops, stops', trip, gap), 0, 2, raw, stops, stops')
  {
    hide Normalizer.Normalized, Rules.Run, Run, ExpireBy;
    var ds := Interrupted(raw, stops, stops', trip, gap);
    var reqs := Pairs.Interrupt(q, q', q'', T0, gap);
    QueryNonEmpty(s, raw, stops);
    QueryNonEmpty(s, raw, stops');
    QueryNonEmpty(s, trip, {});
    NextMinute(gap);
    Pairs.InterruptRun(s.rules, q, q', q'', T0, gap);
    NothingYet(s);
    Apart();
    assert ds == [] + [ds[0]] + [ds[1]] + [ds[2]] && reqs == [] + [reqs[0]] + [reqs[1]] + [reqs[2]];
    Extend(s, [], [], ds[0], q, T0 + s.ttl);
    Extend(s, [] + [ds[0]], [] + [reqs[0]], ds[1], q'', T0 + s.ttl);
    Extend(s, [] + [ds[0]] + [ds[1]], [] + [reqs[0]] + [reqs[1]], ds[2], q', T0 + s.ttl);
    Safety.RunPrefix(s.rules, reqs, 1);
    Safety.RunPrefix(s.rules, reqs, 2);
    assert reqs[..1] == [] + [reqs[0]] && reqs[..2] == [] + [reqs[0]] + [reqs[1]];
  }

  /** Some query besides the two: a session that may have only one query at a time is tripped by it. */
  predicate ThirdQuery(s: Setup, trip: string, q: string, q': string) {
    var q'' := QueryUnder(s, trip, {});
    q''.Some? && q''.value != q && q''.value != q'
  }

  lemma {:induction false} AllowedIsAttained(
    s: Setup, raw: string, stops: set<string>, stops': set<string>, trip: string, gap: int)
    returns (ds: seq<Delivery>, j: nat)
    requires Rules.ValidConfig(s.rules) && s.ttl > 0 && gap >= s.ttl
    requires QueryUnder(s, raw, stops).Some? && QueryUnder(s, raw, stops').Some?
    requires var q, q' := QueryUnder(s, raw, stops).value, QueryUnder(s, raw, stops').value;
      && (q != q' ==> ThirdQuery(s, trip, q, q'))
      && Pairs.GapAllowed(s.rules, q == q', gap)
    ensures 0 < j < |ds| && CountedTwiceAs(s, ds, 0, j, raw, stops, stops') && ds[j].now - ds[0].now == gap
  {
    hide QueryUnder, CountedTwiceAs, Rules.Minute;
    var q, q' := QueryUnder(s, raw, stops).value, QueryUnder(s, raw, stops').value;
    NextMinute(gap);
    if q == q' || s.rules.maxUniqueQueriesPerSession >= 2 || gap > s.rules.sessionEntropyWindow {
      ds, j := Twice(raw, stops, stops', gap), 1;
      TwiceIsCounted(s, raw, stops, stops', q, q', gap);
    } else {
      ds, j := Interrupted(raw, stops, stops', trip, gap), 2;
      InterruptedIsCounted(s, raw, stops, stops', trip, q, q', QueryUnder(s, trip, {}).value, gap);
    }
  }

  /**
   One event can be counted twice `gap` apart if and only if the TTL has passed and the evaluator allows its
   source the gap: a contribution window if the stop words leave its query the same, and next to nothing if not.
   */
  lemma {:induction false} RedeliveryExact(
    s: Setup, raw: string, stops: set<string>, stops': set<string>, trip: string, gap: int)
    requires Rules.ValidConfig(s.rules) && s.ttl > 0
    requires QueryUnder(s, raw, stops).Some? && QueryUnder(s, raw, stops').Some?
    requires QueryUnder(s, raw, stops) != QueryUnder(s, raw, stops')
             ==> ThirdQuery(s, trip, QueryUnder(s, raw, stops).value, QueryUnder(s, raw, stops').value)
    ensures (exists ds: seq<Delivery>, i: nat, j: nat ::
               CountedTwiceAs(s, ds, i, j, raw, stops, stops') && ds[j].now - ds[i].now == gap)
            <==> gap >= s.ttl
                 && Pairs.GapAllowed(s.rules, QueryUnder(s, raw, stops) == QueryUnder(s, raw, stops'), gap)
  {
    hide QueryUnder, Run, Monotone, Pairs.GapAllowed, ThirdQuery;
    forall ds: seq<Delivery>, i: nat, j: nat | CountedTwiceAs(s, ds, i, j, raw, stops, stops')
      ensures ds[j].now - ds[i].now >= s.ttl
      ensures Pairs.GapAllowed(
        s.rules, QueryUnder(s, raw, stops) == QueryUnder(s, raw, stops'), ds[j].now - ds[i].now)
    {
      TTLApart(s, ds, i, j);
      GapWasAllowed(s, ds, i, j);
    }
    if gap >= s.ttl && Pairs.GapAllowed(s.rules, QueryUnder(s, raw, stops) == QueryUnder(s, raw, stops'), gap) {
      var ds, j := AllowedIsAttained(s, raw, stops, stops', trip, gap);
      assert CountedTwiceAs(s, ds, 0, j, raw, stops, stops') && ds[j].now - ds[0].now == gap;
    }
  }

  /** With unchanged stop words: if and only if both the TTL and the contribution window have passed. */
  lemma {:induction false} SameWordsExact(s: Setup, raw: string, stops: set<string>, gap: int)
    requires Rules.ValidConfig(s.rules) && s.ttl > 0
    requires QueryUnder(s, raw, stops).Some?  // the event can be ingested at all
    ensures (exists ds: seq<Delivery>, i: nat, j: nat ::
               CountedTwiceAs(s, ds, i, j, raw, stops, stops) && ds[j].now - ds[i].now == gap)
            <==> gap >= s.ttl && gap >= s.rules.contributionWindow
  {
    hide QueryUnder, CountedTwiceAs;
    RedeliveryExact(s, raw, stops, stops, raw, gap);
  }

  /** With stop words that change its query, and sessions of two queries or more: as soon as the TTL has passed. */
  lemma {:induction false} ChangedWordsExact(
    s: Setup, raw: string, stops: set<string>, stops': set<string>, gap: int)
    requires Rules.ValidConfig(s.rules) && s.ttl > 0 && s.rules.maxUniqueQueriesPerSession >= 2
    requires QueryUnder(s, raw, stops).Some? && QueryUnder(s, raw, stops').Some?
    requires QueryUnder(s, raw, stops) != QueryUnder(s, raw, stops')
    ensures (exists ds: seq<Delivery>, i: nat, j: nat ::
               CountedTwiceAs(s, ds, i, j, raw, stops, stops') && ds[j].now - ds[i].now == gap)
            <==> gap >= s.ttl
  {
    hide QueryUnder, Run, Monotone;
    forall ds: seq<Delivery>, i: nat, j: nat | CountedTwiceAs(s, ds, i, j, raw, stops, stops')
      ensures ds[j].now - ds[i].now >= s.ttl
    {
      TTLApart(s, ds, i, j);
    }
    if gap >= s.ttl {
      NextMinute(gap);
      var ds := Twice(raw, stops, stops', gap);
      TwiceIsCounted(s, raw, stops, stops', QueryUnder(s, raw, stops).value, QueryUnder(s, raw, stops').value, gap);
      assert CountedTwiceAs(s, ds, 0, 1, raw, stops, stops') && ds[1].now - ds[0].now == gap;
    }
  }
}
