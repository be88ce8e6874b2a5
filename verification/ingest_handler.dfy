/** The handler object: the four stateful parts run in sequence. */
module IngestHandler {
  import opened Prelude
  import opened Domain
  import opened Ingest
  import Dedup
  import Normalizer
  import Rules = AntiFraudRules
  import Fraud = AntiFraudEvaluator
  import Win = WindowHistory
  import WindowEngine

  /** Either every dependency is set, or the handler is not configured. */
  datatype Dependencies =
    | Incomplete
    | Ready(store: Dedup.Store, normalizer: Normalizer.Service, fraud: Fraud.Evaluator, engine: WindowEngine.Engine)

  datatype Handled = NotConfigured | Done(result: Result)

  class Handler {
    const deps: Dependencies

    ghost var deliveries: seq<Delivery>  // every event handled so far

    /** What handling an event may change; the normalizer is only read. */
    ghost function Footprint(): set<object>
      reads if deps.Ready? then {deps.fraud} else {}
    {
      if deps.Ready? then
        {deps.store, deps.fraud, deps.engine, deps.engine.buckets} + deps.fraud.sessionEntropy.Values
      else {}
    }

    ghost function SetupOf(): Setup
      requires deps.Ready?
    {
      Setup(deps.store.ttl, deps.fraud.cfg, deps.normalizer.alphabet)
    }

    ghost function Abs(): State
      requires deps.Ready?
      reads Footprint()
    {
      State(deps.store.seen, deps.fraud.Abs(), deps.engine.events)
    }

    /** Each part is in order and together they stand where a run of the deliveries so far leads. */
    ghost predicate Valid()
      reads this, Footprint()
    {
      deps.Ready? ==>
        && deps.store.Valid() && deps.normalizer.Valid() && deps.fraud.Valid() && deps.engine.Valid()
        && Abs() == Run(SetupOf(), deliveries).0
    }

    constructor (deps: Dependencies)
      requires deps.Ready? ==>
        && deps.store.Valid() && deps.normalizer.Valid() && deps.fraud.Valid() && deps.engine.Valid()
        && deps.store.calls == [] && deps.fraud.calls == [] && deps.engine.events == []
      ensures Valid() && deliveries == [] && this.deps == deps
    {
      this.deps := deps;
      deliveries := [];
    }

    /** The engine must find a bucket for what is ingested; nothing else is asked of an event. */
    ghost predicate Fileable(evt: SearchEvent, now: int, wall: int)
      reads Footprint(), if deps.Ready? then {deps.normalizer} else {}
    {
      deps.Ready? && deps.engine.windowSeconds > 0 ==>
        Ingest.Fileable(
          SetupOf(), Abs(), Delivery(evt, now, wall, deps.normalizer.stopWords), deps.engine.windowSeconds)
    }

    /** The delivery an event makes: one with the stop words in force, none if nothing is configured. */
    ghost function Delivered(evt: SearchEvent, now: int, wall: int): seq<Delivery>
      reads if deps.Ready? then {deps.normalizer} else {}
    {
      if deps.Ready? then [Delivery(evt, now, wall, deps.normalizer.stopWords)] else []
    }

    method Handle(evt: SearchEvent, now: int, wall: int) returns (h: Handled)
      requires Valid() && Fileable(evt, now, wall)
      modifies this, Footprint()
      ensures Valid() && fresh(Footprint() - old(Footprint()))
      ensures deps.Incomplete? ==> h == NotConfigured && deliveries == old(deliveries)
      ensures deps.Ready? ==>
        var d := Delivery(evt, now, wall, deps.normalizer.stopWords);
        && deliveries == old(deliveries) + [d]
        && h.Done?
        && (Abs(), h.result) == Ingest.Handle(SetupOf(), old(Abs()), d)
        && |deps.engine.events| == old(|deps.engine.events|) + (if h.result == Ingested then 1 else 0)
        && (h.result == Ingested <==> ReasonOf(h.result) == None)
    {
      hide Ingest.Handle, Run, Dedup.Store.Valid, Normalizer.Service.Valid, Fraud.Evaluator.Valid,
           Fraud.Evaluator.Abs, WindowEngine.Engine.Valid;
      if deps.Incomplete? {
        return NotConfigured;
      }
      var r := Process(evt, now, wall);
      ghost var d := Delivery(evt, now, wall, deps.normalizer.stopWords);
      RunAppend(SetupOf(), deliveries, d);
      IngestingAddsOne(SetupOf(), old(Abs()), d);
      deliveries := deliveries + [d];
      return Done(r);
    }

    method Process(evt: SearchEvent, now: int, wall: int) returns (r: Result)
      requires deps.Ready? && Fileable(evt, now, wall)
      requires deps.store.Valid() && deps.normalizer.Valid() && deps.fraud.Valid() && deps.engine.Valid()
      modifies Footprint()
      ensures deps.store.Valid() && deps.normalizer.Valid() && deps.fraud.Valid() && deps.engine.Valid()
      ensures fresh(Footprint() - old(Footprint()))
      ensures (Abs(), r)
           == Ingest.Handle(SetupOf(), old(Abs()), Delivery(evt, now, wall, deps.normalizer.stopWords))
    {
      hide Rules.Step, Normalizer.Normalized, Dedup.SeenStep, Win.AddedBy, Dedup.Store.Valid, Normalizer.Service.Valid,
           Fraud.Evaluator.Valid, WindowEngine.Engine.Valid, Fraud.Evaluator.Abs, Ingest.Fileable;
      WindowEngine.HasBuckets(deps.engine);
      ghost var before, d := Abs(), Delivery(evt, now, wall, deps.normalizer.stopWords);
      var duplicate := deps.store.SeenOrAdd(evt.eventID, now);
      if duplicate {
        return Duplicate;
      }
      var query := deps.normalizer.Normalize(evt.queryRaw);
      if query == None {
        return InvalidQuery;
      }
      var outcome := deps.fraud.Evaluate(evt, query.value, now);
      if outcome != Rules.Accepted {
        return Refused(outcome);
      }
      var ingestedAtMS := evt.ingestedAtMS;
      if ingestedAtMS <= 0 {
        ingestedAtMS := UnixMilli(now);
      }
      FiledInRange(SetupOf(), before, d, deps.engine.windowSeconds, query.value);
      deps.engine.Add(query.value, 1, ingestedAtMS, wall);
      return Ingested;
    }
  }
}
