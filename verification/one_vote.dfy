/** One source, one vote: what the anti-fraud rules and the window guarantee together, end to end. */
module OneVote {
  import opened Prelude
  import opened Domain
  import opened Ingest
  import Normalizer
  import Rules = AntiFraudRules
  import Safety = AntiFraudSafety
  import Win = WindowHistory

  /** One ingested delivery: its event, the request that was accepted and the stamp it was filed under. */
  datatype Vote = Vote(evt: SearchEvent, req: Rules.Request, ms: int, wall: int)

  /** The vote of an ingested entry. */
  function VoteOf(s: Setup, e: Entry): Vote
    requires Judged(s, e)
  {
    Vote(e.delivery.evt, RequestIn(s, e), StampMS(e.delivery), e.delivery.wall)
  }

  /** Two events of one source: the same ip, the same session or the same user. */
  ghost predicate SameSource(a: SearchEvent, b: SearchEvent) {
    || a.ipHash == b.ipHash
    || a.sessionIDHash == b.sessionIDHash
    || (a.userIDHash.Some? && a.userIDHash == b.userIDHash && a.userIDHash.value != "")
  }

  function QueryOf(s: Setup, d: Delivery): Option<string> {
    Normalizer.Normalized(s.alphabet, d.stops, d.evt.queryRaw)
  }

  predicate Judged(s: Setup, e: Entry) {
    (e.result.Refused? || e.result.Ingested?) && QueryOf(s, e.delivery).Some?
  }

  function RequestIn(s: Setup, e: Entry): Rules.Request
    requires Judged(s, e)
  {
    Rules.RequestOf(e.delivery.evt, QueryOf(s, e.delivery).value, e.delivery.now)
  }

  /** The calls the evaluator received, in order. */
  function Asked(s: Setup, log: seq<Entry>): seq<Rules.Request> {
    if log == [] then []
    else
      var e := log[|log| - 1];
      Asked(s, log[..|log| - 1]) + if Judged(s, e) then [RequestIn(s, e)] else []
  }

  function Votes(s: Setup, log: seq<Entry>): seq<Vote> {
    if log == [] then []
    else
      var e := log[|log| - 1];
      Votes(s, log[..|log| - 1])
      + if Judged(s, e) && e.result == Ingested then [VoteOf(s, e)] else []
  }

  function EventOf(v: Vote): Win.Event {
    Win.Event(v.req.query, 1, Win.FiledSecond(v.ms, v.wall))
  }

  function EventsOf(votes: seq<Vote>): (evs: seq<Win.Event>)
    ensures |evs| == |votes|
  {
    seq(|votes|, i requires 0 <= i < |votes| => EventOf(votes[i]))
  }

  function AcceptedReqs(h: seq<Rules.Entry>): seq<Rules.Request> {
    if h == [] then []
    else
      var e := h[|h| - 1];
      AcceptedReqs(h[..|h| - 1]) + if e.outcome == Rules.Accepted then [e.req] else []
  }

  function ReqsOf(votes: seq<Vote>): seq<Rules.Request> {
    seq(|votes|, i requires 0 <= i < |votes| => votes[i].req)
  }

  lemma {:induction false} RulesRunAppend(c: Rules.Config, reqs: seq<Rules.Request>, r: Rules.Request)
    ensures var (st, log) := Rules.Run(c, reqs);
      var (st', o) := Rules.Step(c, st, r);
      Rules.Run(c, reqs + [r]) == (st', log + [Rules.Entry(r, o)])
  {
    hide Rules.Step;
    assert (reqs + [r])[..|reqs|] == reqs;
  }

  /** The entry a delivery adds to the log, and what it hands on. */
  lemma {:induction false} HandleCases(s: Setup, st: State, d: Delivery)
    ensures var (st', r) := Handle(s, st, d);
      var e := Entry(d, r);
      if Judged(s, e) then
        var req := RequestIn(s, e);
        var (fraud, o) := Rules.Step(s.rules, st.fraud, req);
        && st'.fraud == fraud
        && (r == Ingested <==> o == Rules.Accepted)
        && st'.added == st.added + if r == Ingested then Win.AddedBy(req.query, 1, StampMS(d), d.wall) else []
      else
        st'.fraud == st.fraud && st'.added == st.added && r != Ingested
  {
    hide Normalizer.Normalized, Rules.Step, Win.AddedBy;
  }

  lemma {:induction false} AcceptedAppend(h: seq<Rules.Entry>, e: Rules.Entry)
    ensures AcceptedReqs(h + [e]) == AcceptedReqs(h) + if e.outcome == Rules.Accepted then [e.req] else []
  {
    assert (h + [e])[..|h|] == h;
  }

  lemma {:induction false} LogAppend(s: Setup, log: seq<Entry>, e: Entry)
    ensures Asked(s, log + [e]) == Asked(s, log) + if Judged(s, e) then [RequestIn(s, e)] else []
    ensures Votes(s, log + [e])
         == Votes(s, log)
            + if Judged(s, e) && e.result == Ingested then [VoteOf(s, e)] else []
  {
    hide Judged, RequestIn;
    assert (log + [e])[..|log|] == log;
  }

  /** The pipeline drives the evaluator through exactly the asked requests and files exactly its acceptances. */
  lemma {:induction false} RunFactors(s: Setup, ds: seq<Delivery>)
    ensures var (st, log) := Run(s, ds);
      var (fraud, h) := Rules.Run(s.rules, Asked(s, log));
      && st.fraud == fraud
      && AcceptedReqs(h) == ReqsOf(Votes(s, log))
      && st.added == EventsOf(Votes(s, log))
  {
    hide Handle, Judged, RequestIn, Rules.Step, Rules.Run, Win.AddedBy, Asked, Votes, AcceptedReqs;
    if ds == [] {
      EmptyRun(s);
    } else {
      var n := |ds| - 1;
      RunFactors(s, ds[..n]);
      var (st, log) := Run(s, ds[..n]);
      var (st', r) := Handle(s, st, ds[n]);
      var e := Entry(ds[n], r);
      HandleCases(s, st, ds[n]);
      LogAppend(s, log, e);
      if Judged(s, e) {
        var req := RequestIn(s, e);
        RulesRunAppend(s.rules, Asked(s, log), req);
        AcceptedAppend(Rules.Run(s.rules, Asked(s, log)).1, Rules.Entry(req, Rules.Step(s.rules, st.fraud, req).1));
        if r == Ingested {
          AcceptedHasQuery(s, st, e);
          AddedOne(VoteOf(s, e));
        }
      } else {
        assert Asked(s, log + [e]) == Asked(s, log) && Votes(s, log + [e]) == Votes(s, log);
      }
    }
  }

  lemma {:induction false} EmptyRun(s: Setup)
    ensures Asked(s, []) == [] && Votes(s, []) == [] && Rules.Run(s.rules, []) == (Rules.INITIAL, [])
    ensures AcceptedReqs([]) == []
  {
  }

  lemma {:induction false} AddedOne(v: Vote)
    requires v.req.query != ""
    ensures Win.AddedBy(v.req.query, 1, v.ms, v.wall) == [EventOf(v)]
  {
  }

  lemma {:induction false} AcceptedHasQuery(s: Setup, st: State, e: Entry)
    requires Judged(s, e) && Rules.Step(s.rules, st.fraud, RequestIn(s, e)).1 == Rules.Accepted
    ensures RequestIn(s, e).query != ""
  {
    hide Normalizer.Normalized;
  }

  lemma {:induction false} AskedMonotone(s: Setup, log: seq<Entry>)
    requires forall i, j :: 0 <= i < j < |log| ==> log[i].delivery.now <= log[j].delivery.now
    ensures Rules.Monotone(Asked(s, log))
    ensures forall r :: r in Asked(s, log) ==> log != [] && r.now <= log[|log| - 1].delivery.now
  {
    hide QueryOf;
    if log != [] {
      var n := |log| - 1;
      AskedMonotone(s, log[..n]);
      assert log == log[..n] + [log[n]];
      var before := Asked(s, log[..n]);
      forall r | r in before ensures r.now <= log[n].delivery.now {
        assert log[..n][n - 1] == log[n - 1];
      }
      forall i | 0 <= i < |before| ensures before[i].now <= log[n].delivery.now {
        assert before[i] in before;
      }
    }
  }

  lemma {:induction false} AcceptedIndices(h: seq<Rules.Entry>, k: nat, l: nat) returns (i: nat, j: nat)
    requires k < l < |AcceptedReqs(h)|
    ensures i < j < |h|
    ensures h[i] == Rules.Entry(AcceptedReqs(h)[k], Rules.Accepted)
    ensures h[j] == Rules.Entry(AcceptedReqs(h)[l], Rules.Accepted)
  {
    var n := |h| - 1;
    if l < |AcceptedReqs(h[..n])| {
      i, j := AcceptedIndices(h[..n], k, l);
    } else {
      i := AcceptedIndex(h[..n], k);
      j := n;
    }
  }

  lemma {:induction false} AcceptedIndex(h: seq<Rules.Entry>, k: nat) returns (i: nat)
    requires k < |AcceptedReqs(h)|
    ensures i < |h| && h[i] == Rules.Entry(AcceptedReqs(h)[k], Rules.Accepted)
  {
    var n := |h| - 1;
    if k < |AcceptedReqs(h[..n])| {
      i := AcceptedIndex(h[..n], k);
    } else {
      i := n;
    }
  }

  function VotesOf(s: Setup, ds: seq<Delivery>): seq<Vote> { Votes(s, Run(s, ds).1) }

  /** Two votes are two acceptances of the evaluator's run, in order. */
  lemma {:induction false} VoteIndices(s: Setup, ds: seq<Delivery>, k: nat, l: nat) returns (i: nat, j: nat)
    requires Monotone(ds) && k < l < |VotesOf(s, ds)|
    ensures var reqs := Asked(s, Run(s, ds).1);
      && Rules.Monotone(reqs) && i < j < |reqs|
      && reqs[i] == VotesOf(s, ds)[k].req && Safety.History(s.rules, reqs)[i].outcome == Rules.Accepted
      && reqs[j] == VotesOf(s, ds)[l].req && Safety.History(s.rules, reqs)[j].outcome == Rules.Accepted
  {
    hide Votes, Rules.Run, Run;
    var log := Run(s, ds).1;
    var votes := Votes(s, log);
    RunFactors(s, ds);
    AskedMonotone(s, log);
    var h := Rules.Run(s.rules, Asked(s, log)).1;
    assert ReqsOf(votes)[k] == votes[k].req && ReqsOf(votes)[l] == votes[l].req;
    i, j := AcceptedIndices(h, k, l);
  }

  /** A vote's request carries its event's identifiers. */
  lemma {:induction false} VoteFields(s: Setup, log: seq<Entry>)
    ensures forall v :: v in Votes(s, log) ==>
      && v.req.ip == v.evt.ipHash && v.req.session == v.evt.sessionIDHash && v.req.user == v.evt.userIDHash
  {
    hide Judged, QueryOf;
    if log != [] {
      VoteFields(s, log[..|log| - 1]);
    }
  }

  lemma {:induction false} SourceCarries(s: Setup, ds: seq<Delivery>, k: nat, l: nat)
    requires k < |VotesOf(s, ds)| && l < |VotesOf(s, ds)|
    ensures SameSource(VotesOf(s, ds)[k].evt, VotesOf(s, ds)[l].evt)
            <==> Safety.ShareIdentity(VotesOf(s, ds)[k].req, VotesOf(s, ds)[l].req)
  {
    hide Votes, Run;
    VoteFields(s, Run(s, ds).1);
    assert VotesOf(s, ds)[k] in VotesOf(s, ds) && VotesOf(s, ds)[l] in VotesOf(s, ds);
  }

  /** Two votes of one source for one query are a contribution window apart. */
  lemma {:induction false} VotesSpaced(s: Setup, ds: seq<Delivery>, k: nat, l: nat)
    requires Monotone(ds) && k < l < |VotesOf(s, ds)|
    requires VotesOf(s, ds)[k].req.query == VotesOf(s, ds)[l].req.query
    requires SameSource(VotesOf(s, ds)[k].evt, VotesOf(s, ds)[l].evt)
    ensures VotesOf(s, ds)[l].req.now - VotesOf(s, ds)[k].req.now >= s.rules.contributionWindow
  {
    hide Votes, Rules.Run, Run, Safety.ShareIdentity, SameSource;
    SourceCarries(s, ds, k, l);
    var i, j := VoteIndices(s, ds, k, l);
    Safety.ContributionSpacing(s.rules, Asked(s, Run(s, ds).1), i, j);
  }

  /** The vote of an ingested delivery comes right after the votes before it. */
  lemma {:induction false} VoteAt(s: Setup, ds: seq<Delivery>, i: nat)
    requires i < |ds| && Run(s, ds).1[i].result == Ingested
    ensures Judged(s, Run(s, ds).1[i])
    ensures var k := |VotesOf(s, ds[..i])|;
      k < |VotesOf(s, ds)| && VotesOf(s, ds)[k] == VoteOf(s, Run(s, ds).1[i])
  {
    hide Handle, Judged, VoteOf, Run, Votes;
    var n := |ds| - 1;
    var (st, log) := Run(s, ds[..n]);
    var e := Entry(ds[n], Handle(s, st, ds[n]).1);
    assert ds == ds[..n] + [ds[n]];
    RunAppend(s, ds[..n], ds[n]);
    LogAppend(s, log, e);
    if i == n {
      HandleCases(s, st, ds[n]);
    } else {
      assert ds[..n][..i] == ds[..i];
      VoteAt(s, ds[..n], i);
    }
  }

  /** The votes of two ingested deliveries, in order. */
  lemma {:induction false} VotesAt(s: Setup, ds: seq<Delivery>, i: nat, j: nat) returns (k: nat, l: nat)
    requires i < j < |ds| && Run(s, ds).1[i].result == Ingested && Run(s, ds).1[j].result == Ingested
    ensures Judged(s, Run(s, ds).1[i]) && Judged(s, Run(s, ds).1[j])
    ensures k < l < |VotesOf(s, ds)|
    ensures VotesOf(s, ds)[k] == VoteOf(s, Run(s, ds).1[i]) && VotesOf(s, ds)[l] == VoteOf(s, Run(s, ds).1[j])
  {
    hide Handle, Judged, VoteOf, Run, Votes;
    k, l := |VotesOf(s, ds[..i])|, |VotesOf(s, ds[..j])|;
    VoteAt(s, ds, i);
    VoteAt(s, ds, j);
    LogPrefix(s, ds, j);
    assert Run(s, ds).1[..j][i] == Run(s, ds).1[i];
    VoteAt(s, ds[..j], i);
    assert ds[..j][..i] == ds[..i];
  }

  /**
   Two ingested events with the same normalized query and the same ip, session or user were handled at
   least a contribution window apart.
   */
  lemma {:induction false} EventsSpaced(s: Setup, ds: seq<Delivery>, i: nat, j: nat)
    requires Monotone(ds) && i < j < |ds|
    requires Run(s, ds).1[i].result == Ingested && Run(s, ds).1[j].result == Ingested
    requires Normalizer.Normalized(s.alphabet, ds[i].stops, ds[i].evt.queryRaw)
          == Normalizer.Normalized(s.alphabet, ds[j].stops, ds[j].evt.queryRaw)
    requires || ds[i].evt.ipHash == ds[j].evt.ipHash
             || ds[i].evt.sessionIDHash == ds[j].evt.sessionIDHash
             || (ds[i].evt.userIDHash == ds[j].evt.userIDHash && ds[i].evt.userIDHash !in {None, Some("")})
    ensures ds[j].now - ds[i].now >= s.rules.contributionWindow
  {
    hide Handle, Run, VotesOf, Normalizer.Normalized;
    var k, l := VotesAt(s, ds, i, j);
    VotesSpaced(s, ds, k, l);
  }

  /** Stamps are real times (at least one second) within `lag` milliseconds of the handler's clock. */
  ghost predicate Timely(ds: seq<Delivery>, lag: int) {
    forall d :: d in ds ==> StampMS(d) >= 1000 && -lag <= StampMS(d) - UnixMilli(d.now) <= lag
  }

  lemma {:induction false} VoteStamps(s: Setup, ds: seq<Delivery>, lag: int)
    requires Timely(ds, lag)
    ensures forall v :: v in VotesOf(s, ds) ==> v.ms >= 1000 && -lag <= v.ms - UnixMilli(v.req.now) <= lag
  {
    hide Handle, QueryOf, StampMS, UnixMilli;
    if ds != [] {
      var n := |ds| - 1;
      VoteStamps(s, ds[..n], lag);
      assert ds[n] in ds;
      var (st, log) := Run(s, ds[..n]);
      var e := Entry(ds[n], Handle(s, st, ds[n]).1);
      assert Run(s, ds).1 == log + [e];
      LogAppend(s, log, e);
    }
  }

  /** Stamps far enough apart fall into seconds a full window apart. */
  lemma {:induction false} StampsToSeconds(w: int, lag: int, cw: int, a: Vote, b: Vote)
    requires a.ms >= 1000 && b.ms >= 1000
    requires -lag <= a.ms - UnixMilli(a.req.now) <= lag && -lag <= b.ms - UnixMilli(b.req.now) <= lag
    requires b.req.now - a.req.now >= cw >= (1000 * w + 2 * lag) * 1_000_000
    ensures EventOf(b).sec - EventOf(a).sec >= w && EventOf(a).sec > 0
  {
    assert UnixMilli(b.req.now) - UnixMilli(a.req.now) >= 1000 * w + 2 * lag;
    assert b.ms - a.ms >= 1000 * w;
  }

  /**
   One source, one vote: while an earlier vote is alive in the window, no later vote for the same
   query comes from its ip, its session or its user.
   */
  lemma {:induction false} OneSourceOneVote(s: Setup, w: int, lag: int, ds: seq<Delivery>, k: nat, l: nat)
    requires Monotone(ds) && Timely(ds, lag) && w > 0
    requires s.rules.contributionWindow >= (1000 * w + 2 * lag) * 1_000_000
    requires k < l < |VotesOf(s, ds)| && Win.Live(w, EventsOf(VotesOf(s, ds)), k)
    requires VotesOf(s, ds)[k].req.query == VotesOf(s, ds)[l].req.query
    ensures !SameSource(VotesOf(s, ds)[k].evt, VotesOf(s, ds)[l].evt)
  {
    hide Run, Votes, SameSource;
    var votes := VotesOf(s, ds);
    var evs := EventsOf(votes);
    VoteStamps(s, ds, lag);
    assert votes[k] in votes && votes[l] in votes;
    assert evs[k] == EventOf(votes[k]) && evs[l] == EventOf(votes[l]);
    assert !Win.Kills(w, evs[l].sec, evs[k].sec);
    if SameSource(votes[k].evt, votes[l].evt) {
      VotesSpaced(s, ds, k, l);
      StampsToSeconds(w, lag, s.rules.contributionWindow, votes[k], votes[l]);
      assert false;
    }
  }

  // ----- hence scores count distinct sources

  ghost predicate VotesFor(w: int, evs: seq<Win.Event>, query: string, k: int)
    requires w > 0 && 0 <= k < |evs|
  {
    Win.Live(w, evs, k) && evs[k].query == query
  }

  /** A way to tell sources apart: the ip, the session, or the user where there is one and the ip elsewhere. */
  type Source = SearchEvent -> string

  const BY_IP: Source := (e: SearchEvent) => e.ipHash
  const BY_SESSION: Source := (e: SearchEvent) => e.sessionIDHash
  const BY_USER_OR_IP: Source := (e: SearchEvent) =>
    if e.userIDHash.Some? && e.userIDHash.value != "" then "u" + e.userIDHash.value else "i" + e.ipHash

  /** Events that are told to be of one source share an ip, a session or a user. */
  ghost predicate Identifies(id: Source) {
    forall a, b :: id(a) == id(b) ==> SameSource(a, b)
  }

  lemma {:induction false} SourcesIdentify()
    ensures Identifies(BY_IP) && Identifies(BY_SESSION) && Identifies(BY_USER_OR_IP)
  {
    forall a, b | BY_USER_OR_IP(a) == BY_USER_OR_IP(b) ensures SameSource(a, b) {
      var source, source' := BY_USER_OR_IP(a), BY_USER_OR_IP(b);
      assert source[0] == source'[0] && source[1..] == source'[1..];
    }
  }

  /** The sources behind the votes for a query that are alive, among the first `n`. */
  ghost function LiveSources(
    id: Source, w: int, evs: seq<Win.Event>, votes: seq<Vote>, query: string, n: nat): set<string>
    requires w > 0 && n <= |evs| == |votes|
  {
    set k | 0 <= k < n && VotesFor(w, evs, query, k) :: id(votes[k].evt)
  }

  /** The sources from which the query was ever accepted. */
  function AcceptedSources(id: Source, votes: seq<Vote>, query: string): set<string> {
    set v | v in votes && v.req.query == query :: id(v.evt)
  }

  ghost predicate SourcesApart(id: Source, w: int, evs: seq<Win.Event>, votes: seq<Vote>)
    requires w > 0 && |evs| == |votes|
  {
    forall k, l :: 0 <= k < l < |votes| && Win.Live(w, evs, k) && votes[k].req.query == votes[l].req.query
                   ==> id(votes[k].evt) != id(votes[l].evt)
  }

  lemma {:induction false} NextVote(id: Source, w: int, evs: seq<Win.Event>, votes: seq<Vote>, query: string, n: nat)
    requires w > 0 && |evs| == |votes| && 0 < n <= |evs|
    ensures LiveSources(id, w, evs, votes, query, n)
         == if VotesFor(w, evs, query, n - 1) then LiveSources(id, w, evs, votes, query, n - 1) + {id(votes[n - 1].evt)}
            else LiveSources(id, w, evs, votes, query, n - 1)
  {
    hide Win.Live;
  }

  lemma {:induction false} NextVoteIsNew(
    id: Source, w: int, evs: seq<Win.Event>, votes: seq<Vote>, query: string, n: nat)
    requires w > 0 && evs == EventsOf(votes) && 0 < n <= |evs| && SourcesApart(id, w, evs, votes)
    requires VotesFor(w, evs, query, n - 1)
    ensures id(votes[n - 1].evt) !in LiveSources(id, w, evs, votes, query, n - 1)
  {
    hide Win.Live;
  }

  lemma {:induction false} NextTotal(w: int, evs: seq<Win.Event>, query: string, n: nat)
    requires w > 0 && 0 < n <= |evs|
    ensures Win.Total(Win.LiveTo(w, evs, n), query)
         == Win.Total(Win.LiveTo(w, evs, n - 1), query)
            + if VotesFor(w, evs, query, n - 1) then evs[n - 1].score else 0
  {
    hide Win.Live, Win.LiveTo, Win.Total;
    Win.LiveToLast(w, evs, n);
    Win.TotalAppend(Win.LiveTo(w, evs, n - 1), evs[n - 1], query);
  }

  lemma {:induction false} NextCount(id: Source, w: int, evs: seq<Win.Event>, votes: seq<Vote>, query: string, n: nat)
    requires w > 0 && evs == EventsOf(votes) && 0 < n <= |evs| && SourcesApart(id, w, evs, votes)
    ensures |LiveSources(id, w, evs, votes, query, n)|
         == |LiveSources(id, w, evs, votes, query, n - 1)|
            + if VotesFor(w, evs, query, n - 1) then evs[n - 1].score else 0
  {
    hide LiveSources, SourcesApart, VotesFor, Win.FiledSecond;
    NextVote(id, w, evs, votes, query, n);
    assert evs[n - 1].score == 1;
    if VotesFor(w, evs, query, n - 1) {
      NextVoteIsNew(id, w, evs, votes, query, n);
    }
  }

  lemma {:induction false} NoVotesYet(id: Source, w: int, evs: seq<Win.Event>, votes: seq<Vote>, query: string)
    requires w > 0 && |evs| == |votes|
    ensures Win.Total(Win.LiveTo(w, evs, 0), query) == 0
    ensures LiveSources(id, w, evs, votes, query, 0) == {}
  {
  }

  lemma {:induction false} TotalCountsLive(
    id: Source, w: int, evs: seq<Win.Event>, votes: seq<Vote>, query: string, n: nat)
    requires w > 0 && evs == EventsOf(votes) && n <= |evs| && SourcesApart(id, w, evs, votes)
    ensures Win.Total(Win.LiveTo(w, evs, n), query) == |LiveSources(id, w, evs, votes, query, n)|
  {
    hide *;
    if n == 0 {
      NoVotesYet(id, w, evs, votes, query);
    } else {
      TotalCountsLive(id, w, evs, votes, query, n - 1);
      NextTotal(w, evs, query, n);
      NextCount(id, w, evs, votes, query, n);
    }
  }

  /** A query's score is the number of distinct sources behind its live votes, so never more than ever voted for it. */
  lemma {:induction false} ScoreCountsSources(id: Source, s: Setup, w: int, lag: int, ds: seq<Delivery>, query: string)
    requires Identifies(id) && Monotone(ds) && Timely(ds, lag) && w > 0
    requires s.rules.contributionWindow >= (1000 * w + 2 * lag) * 1_000_000
    ensures var votes := VotesOf(s, ds);
      var evs := EventsOf(votes);  // all the engine has been given, see RunFactors
      && Win.Total(Win.Survivors(w, evs), query) == |LiveSources(id, w, evs, votes, query, |evs|)|
      && Win.Total(Win.Survivors(w, evs), query) <= |AcceptedSources(id, votes, query)|
  {
    hide Run, Votes, Win.Live, LiveSources, AcceptedSources, SourcesApart, EventsOf;
    var votes := VotesOf(s, ds);
    var evs := EventsOf(votes);
    TimelySourcesApart(id, s, w, lag, ds);
    TotalCountsLive(id, w, evs, votes, query, |evs|);
    LiveWithinAccepted(id, w, votes, query);
  }

  lemma {:induction false} TimelySourcesApart(id: Source, s: Setup, w: int, lag: int, ds: seq<Delivery>)
    requires Identifies(id) && Monotone(ds) && Timely(ds, lag) && w > 0
    requires s.rules.contributionWindow >= (1000 * w + 2 * lag) * 1_000_000
    ensures SourcesApart(id, w, EventsOf(VotesOf(s, ds)), VotesOf(s, ds))
  {
    hide Run, Votes, Win.Live;
    var votes := VotesOf(s, ds);
    var evs := EventsOf(votes);
    forall k, l | 0 <= k < l < |votes| && Win.Live(w, evs, k) && votes[k].req.query == votes[l].req.query
      ensures id(votes[k].evt) != id(votes[l].evt)
    {
      OneSourceOneVote(s, w, lag, ds, k, l);
    }
  }

  lemma {:induction false} LiveWithinAccepted(id: Source, w: int, votes: seq<Vote>, query: string)
    requires w > 0
    ensures |LiveSources(id, w, EventsOf(votes), votes, query, |votes|)| <= |AcceptedSources(id, votes, query)|
  {
    var evs := EventsOf(votes);
    var live, ever := LiveSources(id, w, evs, votes, query, |evs|), AcceptedSources(id, votes, query);
    forall source | source in live ensures source in ever {
      var k :| 0 <= k < |evs| && VotesFor(w, evs, query, k) && id(votes[k].evt) == source;
      assert votes[k] in votes && evs[k] == EventOf(votes[k]);
    }
    assert ever == live + (ever - live);
  }
}
