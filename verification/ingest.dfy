/** The ingest pipeline on values: dedup, normalize, evaluate, add, in that order with early exits. */
module Ingest {
  import opened Prelude
  import opened Domain
  import opened TimedMarks
  import Dedup
  import Text
  import Normalizer
  import Rules = AntiFraudRules
  import Win = WindowHistory

  /** One message as the handler meets it: the event, its clock, the engine's clock, the stop words then in force. */
  datatype Delivery = Delivery(evt: SearchEvent, now: int, wall: int, stops: set<string>)

  datatype Setup = Setup(ttl: int, rules: Rules.Config, alphabet: Text.Alphabet)

  datatype State = State(seen: map<string, int>, fraud: Rules.State, added: seq<Win.Event>)

  const INITIAL: State := State(map[], Rules.INITIAL, [])

  datatype Result = Duplicate | InvalidQuery | Refused(outcome: Rules.Outcome) | Ingested

  function ReasonOf(r: Result): Option<RejectReason> {
    match r
    case Duplicate => Some(DUPLICATE_EVENT_ID)
    case InvalidQuery => Some(INVALID_QUERY)
    case Refused(outcome) => Rules.ReasonOf(outcome)
    case Ingested => None
  }

  /** The stamp an event is filed under: its own, or the handler's clock if it has none. */
  function StampMS(d: Delivery): int {
    if d.evt.ingestedAtMS <= 0 then UnixMilli(d.now) else d.evt.ingestedAtMS
  }

  function Handle(s: Setup, st: State, d: Delivery): (State, Result) {
    var (seen, duplicate) := Dedup.SeenStep(s.ttl, st.seen, Dedup.Call(d.evt.eventID, d.now));
    var st := st.(seen := seen);
    if duplicate then (st, Duplicate)
    else
      match Normalizer.Normalized(s.alphabet, d.stops, d.evt.queryRaw)
      case None => (st, InvalidQuery)
      case Some(query) => Judge(s, st, d, query)
  }

  function Judge(s: Setup, st: State, d: Delivery, query: string): (State, Result) {
    var (fraud, outcome) := Rules.Step(s.rules, st.fraud, Rules.RequestOf(d.evt, query, d.now));
    var st := st.(fraud := fraud);
    if outcome != Rules.Accepted then (st, Refused(outcome))
    else (st.(added := st.added + Win.AddedBy(query, 1, StampMS(d), d.wall)), Ingested)
  }

  /** If a delivery is ingested at all, the second it is filed under has a bucket. */
  ghost predicate Fileable(s: Setup, st: State, d: Delivery, w: int)
    requires w > 0
  {
    Handle(s, st, d).1 == Ingested ==> Win.Indexable(w, Win.FiledSecond(StampMS(d), d.wall))
  }

  /** A fileable delivery that gets past every rule meets the engine's demand on seconds. */
  lemma {:induction false} FiledInRange(s: Setup, st: State, d: Delivery, w: int, query: string)
    requires w > 0 && Fileable(s, st, d, w) && Handle(s, st, d).1 == Ingested
    ensures forall e :: e in Win.AddedBy(query, 1, StampMS(d), d.wall) ==> Win.Indexable(w, e.sec)
  {
    hide Handle;
  }

  datatype Entry = Entry(delivery: Delivery, result: Result)

  function Run(s: Setup, ds: seq<Delivery>): (r: (State, seq<Entry>))
    ensures |r.1| == |ds|
    ensures forall i :: 0 <= i < |ds| ==> r.1[i].delivery == ds[i]
  {
    if ds == [] then (INITIAL, [])
    else
      var n := |ds| - 1;
      var (st, log) := Run(s, ds[..n]);
      var (st', r) := Handle(s, st, ds[n]);
      (st', log + [Entry(ds[n], r)])
  }

  ghost predicate Monotone(ds: seq<Delivery>) {
    forall i, j :: 0 <= i < j < |ds| ==> ds[i].now <= ds[j].now
  }

  lemma {:induction false} RunAppend(s: Setup, ds: seq<Delivery>, d: Delivery)
    ensures var (st, log) := Run(s, ds);
      var (st', r) := Handle(s, st, d);
      Run(s, ds + [d]) == (st', log + [Entry(d, r)])
  {
    assert (ds + [d])[..|ds|] == ds;
  }

  /** Ingesting adds exactly one event to the aggregate; every other result is a rejection and adds none. */
  lemma {:induction false} IngestingAddsOne(s: Setup, st: State, d: Delivery)
    ensures var (st', r) := Handle(s, st, d);
      && |st'.added| == |st.added| + (if r == Ingested then 1 else 0)
      && (r == Ingested <==> ReasonOf(r) == None)
  {
    hide Normalizer.Normalized, Dedup.SeenStep, Rules.Admit, Rules.Cleanup;
  }

  /** A delivery that is no duplicate and has a query gets the evaluator's verdict. */
  lemma {:induction false} FreshIsJudged(s: Setup, st: State, d: Delivery)
    requires !Dedup.SeenStep(s.ttl, st.seen, Dedup.Call(d.evt.eventID, d.now)).1
    requires Normalizer.Normalized(s.alphabet, d.stops, d.evt.queryRaw).Some?
    ensures var q := Normalizer.Normalized(s.alphabet, d.stops, d.evt.queryRaw).value;
      var (st', r) := Handle(s, st, d);
      var (fraud, o) := Rules.Step(s.rules, st.fraud, Rules.RequestOf(d.evt, q, d.now));
      && st'.seen == Dedup.SeenStep(s.ttl, st.seen, Dedup.Call(d.evt.eventID, d.now)).0
      && st'.fraud == fraud
      && r == if o == Rules.Accepted then Ingested else Refused(o)
  {
    hide Normalizer.Normalized, Rules.Step, Win.AddedBy, Dedup.SeenStep;
  }

  lemma {:induction false} LogPrefix(s: Setup, ds: seq<Delivery>, k: nat)
    requires k <= |ds|
    ensures Run(s, ds[..k]).1 == Run(s, ds).1[..k]
    decreases |ds| - k
  {
    hide Handle;
    if k == |ds| {
      assert ds[..k] == ds;
    } else {
      LogPrefix(s, ds, k + 1);
      assert ds[..k + 1][..k] == ds[..k];
      var log := Run(s, ds[..k + 1]).1;
      assert log == Run(s, ds[..k]).1 + [log[k]];
      assert Run(s, ds).1[..k] == log[..k];
    }
  }

  lemma {:induction false} ResultAt(s: Setup, ds: seq<Delivery>, k: nat)
    requires k < |ds|
    ensures Run(s, ds).1[k].result == Handle(s, Run(s, ds[..k]).0, ds[k]).1
  {
    hide Handle;
    LogPrefix(s, ds, k + 1);
    assert ds[..k + 1][..k] == ds[..k];
    assert Run(s, ds).1[k] == Run(s, ds).1[..k + 1][k];
  }

  // ----- redeliveries

  /** Two states that differ at most in expired dedup entries. */
  ghost predicate Alike(a: State, b: State, t: int) {
    && a.fraud == b.fraud
    && a.added == b.added
    && (forall key, u :: t <= u ==> (Active(a.seen, key, u) <==> Active(b.seen, key, u)))
  }

  lemma {:induction false} HandleAlike(s: Setup, a: State, b: State, t: int, d: Delivery)
    requires Alike(a, b, t) && t <= d.now
    ensures Handle(s, a, d).1 == Handle(s, b, d).1
    ensures Alike(Handle(s, a, d).0, Handle(s, b, d).0, d.now)
  {
    hide Normalizer.Normalized, Rules.Step, Win.AddedBy;
    var call := Dedup.Call(d.evt.eventID, d.now);
    SeenAlike(s.ttl, a.seen, b.seen, t, call);
    var (seenA, hit) := Dedup.SeenStep(s.ttl, a.seen, call);
    var (seenB, _) := Dedup.SeenStep(s.ttl, b.seen, call);
    hide Dedup.SeenStep, Judge;
    if !hit {
      match Normalizer.Normalized(s.alphabet, d.stops, d.evt.queryRaw)
      case None =>
      case Some(query) => JudgeAlike(s, a.(seen := seenA), b.(seen := seenB), d, query);
    }
  }

  lemma {:induction false} JudgeAlike(s: Setup, a: State, b: State, d: Delivery, query: string)
    requires Alike(a, b, d.now)
    ensures Judge(s, a, d, query).1 == Judge(s, b, d, query).1
    ensures Alike(Judge(s, a, d, query).0, Judge(s, b, d, query).0, d.now)
  {
    hide Rules.Step, Win.AddedBy;
  }

  lemma {:induction false} SeenAlike(ttl: int, a: map<string, int>, b: map<string, int>, t: int, call: Dedup.Call)
    requires forall key, u :: t <= u ==> (Active(a, key, u) <==> Active(b, key, u))
    requires t <= call.now
    ensures var (a', hitA) := Dedup.SeenStep(ttl, a, call);
      var (b', hitB) := Dedup.SeenStep(ttl, b, call);
      && hitA == hitB
      && (forall key, u :: call.now <= u ==> (Active(a', key, u) <==> Active(b', key, u)))
      && (hitA ==> forall key, u :: call.now <= u ==> (Active(a', key, u) <==> Active(a, key, u)))
  {
    var a', b' := Dedup.SeenStep(ttl, a, call).0, Dedup.SeenStep(ttl, b, call).0;
    assert Active(a, call.key, call.now) <==> Active(b, call.key, call.now);
    forall key, u | call.now <= u
      ensures Active(a', key, u) <==> Active(b', key, u)
      ensures Dedup.SeenStep(ttl, a, call).1 ==> (Active(a', key, u) <==> Active(a, key, u))
    {
      assert Active(a, key, u) <==> Active(b, key, u);
      assert Active(Unexpired(a, call.now), key, u) <==> Active(a, key, u);
      assert Active(Unexpired(b, call.now), key, u) <==> Active(b, key, u);
    }
  }

  /** A duplicate changes nothing but expired dedup entries. */
  lemma {:induction false} DuplicateLeavesAlike(s: Setup, st: State, d: Delivery)
    requires Handle(s, st, d).1 == Duplicate
    ensures Alike(Handle(s, st, d).0, st, d.now)
  {
    hide Normalizer.Normalized, Rules.Step, Win.AddedBy;
    SeenAlike(s.ttl, st.seen, st.seen, d.now, Dedup.Call(d.evt.eventID, d.now));
  }

  /**
   Redelivery stuttering: a delivery that comes out as a duplicate can be inserted anywhere in a run
   without changing the aggregate, the anti-fraud state or any other verdict.
   */
  lemma {:induction false} RedeliveryStutters(s: Setup, xs: seq<Delivery>, d: Delivery, ys: seq<Delivery>)
    requires Monotone(xs + [d] + ys)
    requires Handle(s, Run(s, xs).0, d).1 == Duplicate
    ensures var (with, logWith) := Run(s, xs + [d] + ys);
      var (without, log) := Run(s, xs + ys);
      && with.fraud == without.fraud
      && with.added == without.added
      && Alike(with, without, LastNow(d, ys))
      && logWith == log[..|xs|] + [Entry(d, Duplicate)] + log[|xs|..]
  {
    hide Handle, Alike, Run, Monotone;
    if ys == [] {
      assert xs + [d] + ys == xs + [d] && xs + ys == xs;
      RunAppend(s, xs, d);
      DuplicateLeavesAlike(s, Run(s, xs).0, d);
    } else {
      var n := |ys| - 1;
      var y := ys[n];
      assert xs + [d] + ys == (xs + [d] + ys[..n]) + [y];
      assert xs + ys == (xs + ys[..n]) + [y];
      MonotonePrefix(xs + [d] + ys[..n], y);
      RedeliveryStutters(s, xs, d, ys[..n]);
      RunAppend(s, xs + [d] + ys[..n], y);
      RunAppend(s, xs + ys[..n], y);
      HandleAlike(s, Run(s, xs + [d] + ys[..n]).0, Run(s, xs + ys[..n]).0, LastNow(d, ys[..n]), y);
    }
    AlikeMeans(Run(s, xs + [d] + ys).0, Run(s, xs + ys).0, LastNow(d, ys));
  }

  function LastNow(d: Delivery, ys: seq<Delivery>): int {
    if ys == [] then d.now else ys[|ys| - 1].now
  }

  lemma {:induction false} AlikeMeans(a: State, b: State, t: int)
    requires Alike(a, b, t)
    ensures a.fraud == b.fraud && a.added == b.added
  {
  }

  lemma {:induction false} MonotonePrefix(ds: seq<Delivery>, d: Delivery)
    requires Monotone(ds + [d])
    ensures Monotone(ds) && (ds != [] ==> ds[|ds| - 1].now <= d.now)
  {
    var all := ds + [d];
    assert forall i :: 0 <= i < |ds| ==> all[i] == ds[i];
    assert all[|ds|] == d;
  }

  /** The entries that were not duplicates. */
  function Processed(log: seq<Entry>): seq<Entry> {
    if log == [] then []
    else
      var n := |log| - 1;
      Processed(log[..n]) + if log[n].result != Duplicate then [log[n]] else []
  }

  function DeliveriesOf(log: seq<Entry>): seq<Delivery> {
    seq(|log|, i requires 0 <= i < |log| => log[i].delivery)
  }

  /** Erasing every duplicate from a run leaves the aggregate, the anti-fraud state and all other verdicts. */
  lemma {:induction false} DuplicatesErasable(s: Setup, ds: seq<Delivery>)
    requires Monotone(ds)
    ensures var (st, log) := Run(s, ds);
      var (st', log') := Run(s, DeliveriesOf(Processed(log)));
      && log' == Processed(log)
      && st'.fraud == st.fraud && st'.added == st.added
      && (ds != [] ==> Alike(st', st, ds[|ds| - 1].now))
  {
    hide Handle, Alike, Run, Processed, DeliveriesOf;
    NothingProcessed(s);
    if ds != [] {
      var n := |ds| - 1;
      var d := ds[n];
      assert ds == ds[..n] + [d];
      DuplicatesErasable(s, ds[..n]);
      RunAppend(s, ds[..n], d);
      var (st, log) := Run(s, ds[..n]);
      var kept := DeliveriesOf(Processed(log));
      var st' := Run(s, kept).0;
      assert n == 0 ==> ds[..n] == [];
      AlikeLater(s, ds[..n], st', st, d.now);
      HandleAlike(s, st', st, d.now, d);
      ProcessedAppend(log, Entry(d, Handle(s, st, d).1));
      if Handle(s, st, d).1 == Duplicate {
        DuplicateLeavesAlike(s, st, d);
        AlikeChain(st', st, Handle(s, st, d).0, d.now);
        AlikeMeans(st', Handle(s, st, d).0, d.now);
      } else {
        RunAppend(s, kept, d);
        AlikeMeans(Handle(s, st', d).0, Handle(s, st, d).0, d.now);
      }
    }
  }

  lemma {:induction false} NothingProcessed(s: Setup)
    ensures Run(s, []) == (INITIAL, []) && Processed([]) == [] && DeliveriesOf([]) == []
  {
  }

  lemma {:induction false} ProcessedAppend(log: seq<Entry>, e: Entry)
    ensures Processed(log + [e]) == if e.result != Duplicate then Processed(log) + [e] else Processed(log)
    ensures e.result != Duplicate
            ==> DeliveriesOf(Processed(log + [e])) == DeliveriesOf(Processed(log)) + [e.delivery]
  {
    assert (log + [e])[..|log|] == log;
  }

  lemma {:induction false} AlikeLater(s: Setup, ds: seq<Delivery>, a: State, b: State, t: int)
    requires ds == [] ==> a.fraud == b.fraud && a.added == b.added && a.seen == b.seen
    requires ds != [] ==> Alike(a, b, ds[|ds| - 1].now) && ds[|ds| - 1].now <= t
    ensures Alike(a, b, t)
  {
  }

  lemma {:induction false} AlikeChain(a: State, b: State, c: State, t: int)
    requires Alike(a, b, t) && Alike(c, b, t)
    ensures Alike(a, c, t)
  {
  }

  function CallsOf(ds: seq<Delivery>): seq<Dedup.Call> {
    seq(|ds|, i requires 0 <= i < |ds| => Dedup.Call(ds[i].evt.eventID, ds[i].now))
  }

  lemma {:induction false} RunDedups(s: Setup, ds: seq<Delivery>)
    ensures var (st, log) := Run(s, ds);
      var (seen, hits) := Dedup.SeenRun(s.ttl, CallsOf(ds));
      && st.seen == seen
      && (forall i :: 0 <= i < |ds| ==> (hits[i] <==> log[i].result == Duplicate))
  {
    hide Normalizer.Normalized, Rules.Step, Win.AddedBy, Dedup.SeenStep;
    if ds != [] {
      var n := |ds| - 1;
      RunDedups(s, ds[..n]);
      assert CallsOf(ds)[..n] == CallsOf(ds[..n]);
    }
  }

  /** A delivery is a duplicate exactly if its id was processed afresh less than TTL before it. */
  lemma {:induction false} DuplicateExact(s: Setup, ds: seq<Delivery>, d: Delivery)
    requires Monotone(ds + [d])
    ensures var (st, log) := Run(s, ds);
      Handle(s, st, d).1 == Duplicate
      <==> d.evt.eventID != ""
           && exists i :: 0 <= i < |ds| && ds[i].evt.eventID == d.evt.eventID && log[i].result != Duplicate
                          && d.now < ds[i].now + s.ttl
  {
    hide Normalizer.Normalized, Rules.Step, Win.AddedBy, Dedup.SeenRun, Dedup.SeenStep, Run;
    RunDedups(s, ds);
    var calls, call := CallsOf(ds), Dedup.Call(d.evt.eventID, d.now);
    var all := ds + [d];
    assert forall i :: 0 <= i < |ds| ==> all[i] == ds[i];
    assert all[|ds|] == d;
    Dedup.SeenExact(s.ttl, calls, call);
  }
}
