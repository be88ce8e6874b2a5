/** The contribution window that one source, one vote needs is exactly the window plus twice the lag. */
module OneVoteExact {
  import opened Prelude
  import opened Domain
  import opened Ingest
  import opened OneVote
  import Normalizer
  import Rules = AntiFraudRules
  import Pairs = AntiFraudPairs
  import Win = WindowHistory
  import WindowTheorems
  import opened Witness

  /** In every timely run no two votes for a query share a source while the earlier one is alive. */
  ghost predicate OneVoteAlways(s: Setup, w: int, lag: int)
    requires w > 0
  {
    forall ds, k, l ::
      Monotone(ds) && Timely(ds, lag) && 0 <= k < l < |VotesOf(s, ds)|
      && Win.Live(w, EventsOf(VotesOf(s, ds)), k) && VotesOf(s, ds)[k].req.query == VotesOf(s, ds)[l].req.query
      ==> !SameSource(VotesOf(s, ds)[k].evt, VotesOf(s, ds)[l].evt)
  }

  function Sent(id: string, raw: string, ip: string, ms: int, now: int): Delivery {
    Delivery(SearchEvent(id, ms, raw, ip, SESSION, None), now, now, {})
  }

  /** The first event is stamped `a` ms ahead of the clock, the second `b` ms behind it. */
  function Squeeze(s: Setup, raw: string, a: int, b: int): seq<Delivery> {
    var first := 1000 * (a + 1);
    var t := (first - a) * 1_000_000;
    var t' := t + s.rules.contributionWindow;
    [Sent(EVENT_ID, raw, IP, first, t), Sent(OTHER_EVENT_ID, raw, OTHER_IP, UnixMilli(t') - b, t')]
  }

  /** An accepted event with an id not met before is ingested. */
  lemma {:induction false} SentIsIngested(
    s: Setup, st: State, id: string, raw: string, ip: string, ms: int, now: int)
    requires id !in st.seen
    requires Normalizer.Normalized(s.alphabet, {}, raw).Some?
    requires var q := Normalizer.Normalized(s.alphabet, {}, raw).value;
      Rules.Step(s.rules, st.fraud, Rules.Request(ip, SESSION, None, q, now)).1 == Rules.Accepted
    ensures Handle(s, st, Sent(id, raw, ip, ms, now)).1 == Ingested
    ensures Handle(s, st, Sent(id, raw, ip, ms, now)).0.seen.Keys <= st.seen.Keys + {id}
  {
    hide Normalizer.Normalized, Rules.Step, Handle;
    FreshIsJudged(s, st, Sent(id, raw, ip, ms, now));
  }

  lemma {:induction false} SqueezeVotes(s: Setup, raw: string, a: int, b: int)
    requires Rules.ValidConfig(s.rules) && Normalizer.Normalized(s.alphabet, {}, raw).Some?
    ensures var ds, q := Squeeze(s, raw, a, b), Normalizer.Normalized(s.alphabet, {}, raw).value;
      var reqs := Pairs.Repeat(q, q, ds[0].now, OTHER_IP, s.rules.contributionWindow);
      VotesOf(s, ds) == [Vote(ds[0].evt, reqs[0], StampMS(ds[0]), ds[0].now),
                         Vote(ds[1].evt, reqs[1], StampMS(ds[1]), ds[1].now)]
  {
    hide Normalizer.Normalized, Rules.Step, Win.AddedBy, Rules.Run, Handle, StampMS;
    var ds, q := Squeeze(s, raw, a, b), Normalizer.Normalized(s.alphabet, {}, raw).value;
    var gap := s.rules.contributionWindow;
    var reqs := Pairs.Repeat(q, q, ds[0].now, OTHER_IP, gap);
    NormalizedNonEmpty(s, raw);
    Apart();
    Pairs.RepeatRun(s.rules, q, q, ds[0].now, OTHER_IP, gap);
    assert reqs == [] + [reqs[0]] + [reqs[1]];
    RulesRunAppend(s.rules, [], reqs[0]);
    RulesRunAppend(s.rules, [] + [reqs[0]], reqs[1]);
    EmptyRun(s);
    assert ds == [] + [ds[0]] + [ds[1]];
    RunAppend(s, [], ds[0]);
    RunAppend(s, [] + [ds[0]], ds[1]);
    var st0 := Run(s, []).0;
    SentIsIngested(s, st0, EVENT_ID, raw, IP, ds[0].evt.ingestedAtMS, ds[0].now);
    HandleCases(s, st0, ds[0]);
    var st1 := Handle(s, st0, ds[0]).0;
    SentIsIngested(s, st1, OTHER_EVENT_ID, raw, OTHER_IP, ds[1].evt.ingestedAtMS, ds[1].now);
    LogAppend(s, [], Entry(ds[0], Ingested));
    LogAppend(s, [] + [Entry(ds[0], Ingested)], Entry(ds[1], Ingested));
  }

  lemma {:induction false} NormalizedNonEmpty(s: Setup, raw: string)
    ensures var q := Normalizer.Normalized(s.alphabet, {}, raw); q.Some? ==> q.value != ""
  {
    hide Normalizer.Words, Normalizer.Keep;
  }

  lemma {:induction false} MilliShift(m: int, d: int)
    ensures UnixMilli(m * 1_000_000 + d) == m + UnixMilli(d)
  {
  }

  /** With a shorter contribution window the second vote lands inside the first one's window. */
  lemma {:induction false} SqueezeFits(s: Setup, w: int, lag: int, raw: string) returns (a: int, b: int)
    requires Rules.ValidConfig(s.rules) && w > 0 && lag >= 0
    requires s.rules.contributionWindow < (1000 * w + 2 * lag) * 1_000_000
    ensures var ds := Squeeze(s, raw, a, b);
      && Timely(ds, lag) && Monotone(ds)
      && 0 <= StampMS(ds[1]) / 1000 - StampMS(ds[0]) / 1000 < w
  {
    var span := UnixMilli(s.rules.contributionWindow);
    var over := if span < 1000 * w then 0 else span - 1000 * w + 1;
    a := if over <= lag then over else lag;
    b := over - a;
    var ds := Squeeze(s, raw, a, b);
    MilliShift(1000 * (a + 1) - a, 0);
    MilliShift(1000 * (a + 1) - a, s.rules.contributionWindow);
    assert StampMS(ds[1]) == 1000 * (a + 1) + span - over;
    forall d | d in ds ensures StampMS(d) >= 1000 && -lag <= StampMS(d) - UnixMilli(d.now) <= lag {
      assert d == ds[0] || d == ds[1];
    }
  }

  lemma {:induction false} SqueezeBreaksIt(s: Setup, w: int, lag: int, raw: string)
    requires Rules.ValidConfig(s.rules) && w > 0 && lag >= 0
    requires Normalizer.Normalized(s.alphabet, {}, raw).Some?
    requires s.rules.contributionWindow < (1000 * w + 2 * lag) * 1_000_000
    ensures !OneVoteAlways(s, w, lag)
  {
    hide Normalizer.Normalized, Run, Votes;
    var a, b := SqueezeFits(s, w, lag, raw);
    var ds := Squeeze(s, raw, a, b);
    SqueezeVotes(s, raw, a, b);
    var votes := VotesOf(s, ds);
    var evs := EventsOf(votes);
    assert evs[0] == EventOf(votes[0]) && evs[1] == EventOf(votes[1]);
    assert ds[0] in ds && ds[1] in ds;
    var s0, s1 := evs[0].sec, evs[1].sec;
    WindowTheorems.NearbySlots(w, s1, s0);
    assert Win.Live(w, evs, 0);
    assert SameSource(votes[0].evt, votes[1].evt);
  }

  /** One source, one vote holds over all timely runs if and only if the cap spans the window plus twice the lag. */
  lemma {:induction false} OneVoteThreshold(s: Setup, w: int, lag: int, raw: string)
    requires Rules.ValidConfig(s.rules) && w > 0 && lag >= 0
    requires Normalizer.Normalized(s.alphabet, {}, raw).Some?  // some query can be ingested at all
    ensures OneVoteAlways(s, w, lag) <==> s.rules.contributionWindow >= (1000 * w + 2 * lag) * 1_000_000
  {
    hide Normalizer.Normalized, Run, Votes, SameSource, Win.Live;
    if s.rules.contributionWindow >= (1000 * w + 2 * lag) * 1_000_000 {
      forall ds, k, l |
        Monotone(ds) && Timely(ds, lag) && 0 <= k < l < |VotesOf(s, ds)|
        && Win.Live(w, EventsOf(VotesOf(s, ds)), k) && VotesOf(s, ds)[k].req.query == VotesOf(s, ds)[l].req.query
        ensures !SameSource(VotesOf(s, ds)[k].evt, VotesOf(s, ds)[l].evt)
      {
        OneSourceOneVote(s, w, lag, ds, k, l);
      }
    } else {
      SqueezeBreaksIt(s, w, lag, raw);
    }
  }
}
