/** The raw-message entry point: every message ends in exactly one outcome, and the counters say which. */
module RuntimeHandler {
  import opened Prelude
  import opened Domain
  import Ingest
  import opened IngestHandler

  type Payload = seq<bv8>

  /** The validator is any function: it maps a payload to an event, rejects it, or fails otherwise. */
  datatype Validated = Mapped(evt: SearchEvent) | RejectError(reason: RejectReason) | OtherError

  class Collector {
    var ingestTotal: nat
    var dropped: map<string, int>

    constructor ()
      ensures ingestTotal == 0 && dropped == map[]
    {
      ingestTotal, dropped := 0, map[];
    }

    method IncIngest()
      modifies this
      ensures ingestTotal == old(ingestTotal) + 1 && dropped == old(dropped)
    {
      ingestTotal := ingestTotal + 1;
    }

    method IncDropped(reason: RejectReason)
      modifies this
      ensures ingestTotal == old(ingestTotal)
      ensures dropped == Bumped(old(dropped), Label(reason))
      // one more under the reason or, if it is empty, under the unknown label; every other count as before
      ensures forall t :: Get(dropped, t)
                == Get(old(dropped), t)
                   + if t == (if reason == "" then "UNKNOWN_REJECT_REASON" else reason) then 1 else 0
    {
      var tag := reason;
      if tag == "" {
        tag := UNKNOWN_REJECT;
      }
      dropped := dropped[tag := Get(dropped, tag) + 1];
    }
  }

  function Label(reason: RejectReason): string { if reason == "" then UNKNOWN_REJECT else reason }

  function Bumped(counts: map<string, int>, tag: string): map<string, int> {
    counts[tag := Get(counts, tag) + 1]
  }

  class RuntimeHandler {
    const validator: Option<Payload -> Validated>
    const handler: Handler?
    const reporter: Collector?  // the collector behind the reject reporter, if there is one
    const metrics: Collector?

    ghost var nilReturns: nat

    ghost predicate Wired()
    {
      metrics != null && reporter == metrics
    }

    ghost function Footprint(): set<object>
      reads if handler != null && handler.deps.Ready? then {handler.deps.fraud} else {}
    {
      (if metrics != null then {metrics} else {}) + (if reporter != null then {reporter} else {})
      + (if handler != null then {handler} + handler.Footprint() else {})
    }

    /**
     Conservation, in every reachable state: each nil return was either ingested or dropped for a
     reason, and each ingestion is in the aggregate.
     */
    ghost predicate Valid()
      reads this, Footprint()
    {
      && (handler != null ==> handler.Valid())
      && (Wired() ==> nilReturns == metrics.ingestTotal + SumMap(metrics.dropped))
      && (Wired() && handler != null && handler.deps.Ready?
          ==> metrics.ingestTotal == |handler.deps.engine.events|)
    }

    constructor (validator: Option<Payload -> Validated>, handler: Handler?, reporter: Collector?, metrics: Collector?)
      requires handler != null ==> handler.Valid() && handler.deliveries == []
      requires metrics != null ==> metrics.ingestTotal == 0 && metrics.dropped == map[]
      ensures Valid() && nilReturns == 0
      ensures this.validator == validator && this.handler == handler
      ensures this.reporter == reporter && this.metrics == metrics
    {
      this.validator, this.handler, this.reporter, this.metrics := validator, handler, reporter, metrics;
      nilReturns := 0;
      new;
      NothingDropped();
      if handler != null && handler.deps.Ready? { NothingAdded(handler); }
    }

    method ReportReject(reason: RejectReason)
      modifies if reporter != null then {reporter} else {}
      ensures reporter != null ==> reporter.ingestTotal == old(reporter.ingestTotal)
                                   && reporter.dropped == Bumped(old(reporter.dropped), Label(reason))
    {
      if reporter != null {
        reporter.IncDropped(reason);
      }
    }

    /** A rejected message: one drop counted, a nil return. */
    method Drop(reason: RejectReason)
      requires Valid()
      modifies `nilReturns, if reporter != null then {reporter} else {}
      ensures Valid() && nilReturns == old(nilReturns) + 1
      ensures metrics != null ==> metrics.ingestTotal == old(metrics.ingestTotal)
      ensures reporter != null ==> reporter.dropped == Bumped(old(reporter.dropped), Label(reason))
    {
      hide Handler.Valid, SumMap, Bumped, Label;
      if handler != null { Unrelated(this, handler); }
      if handler != null && reporter != null { Unrelated(reporter, handler); }
      if Wired() { BumpedSum(metrics.dropped, Label(reason)); }
      ReportReject(reason);
      nilReturns := nilReturns + 1;
    }

    /** An ingested message, already in the aggregate: one ingestion counted, a nil return. */
    method CountIngested()
      requires handler != null && handler.Valid() && handler.deps.Ready?
      requires Wired() ==> nilReturns == metrics.ingestTotal + SumMap(metrics.dropped)
                           && metrics.ingestTotal + 1 == |handler.deps.engine.events|
      modifies `nilReturns, if metrics != null then {metrics} else {}
      ensures Valid() && nilReturns == old(nilReturns) + 1
      ensures metrics != null ==> metrics.ingestTotal == old(metrics.ingestTotal) + 1
      ensures reporter != null ==> reporter.dropped == old(reporter.dropped)
    {
      hide Handler.Valid, SumMap;
      Unrelated(this, handler);
      if metrics != null { Unrelated(metrics, handler); }
      if metrics != null {
        metrics.IncIngest();
      }
      nilReturns := nilReturns + 1;
    }

    /** Whether a message is answered with nil at all. */
    ghost predicate Answers(payload: Payload)
    {
      validator.Some? && handler != null && !(validator.value(payload).Mapped? && handler.deps.Incomplete?)
    }

    /** What a message hands on to the pipeline: its event, or nothing. */
    ghost function DeliveredBy(payload: Payload, now: int, wall: int): seq<Ingest.Delivery>
      requires handler != null
      reads if handler.deps.Ready? then {handler.deps.normalizer} else {}
    {
      if validator.Some? && validator.value(payload).Mapped? then
        handler.Delivered(validator.value(payload).evt, now, wall)
      else []
    }

    /** The reason the handler drops an event for; None if it ingests it or is not configured. */
    ghost function HandlerReason(evt: SearchEvent, now: int, wall: int): Option<RejectReason>
      requires handler != null
      reads Footprint(), if handler.deps.Ready? then {handler.deps.normalizer} else {}
    {
      if handler.deps.Incomplete? then None
      else
        var d := Ingest.Delivery(evt, now, wall, handler.deps.normalizer.stopWords);
        Ingest.ReasonOf(Ingest.Handle(handler.SetupOf(), handler.Abs(), d).1)
    }

    /** The reason a message is dropped for; None if it is ingested or not answered. */
    ghost function DropReason(payload: Payload, now: int, wall: int): Option<RejectReason>
      reads Footprint(), if handler != null && handler.deps.Ready? then {handler.deps.normalizer} else {}
    {
      if validator == None || handler == null then None
      else
        match validator.value(payload)
        case RejectError(reason) => Some(reason)
        case OtherError => Some(UNKNOWN_REJECT)
        case Mapped(evt) => HandlerReason(evt, now, wall)
    }

    /** The handler's part: a mapped event is ingested, dropped for a reason, or met by no configuration. */
    method HandleEvent(evt: SearchEvent, now: int, wall: int) returns (isNil: bool)
      requires Valid() && handler != null && handler.Fileable(evt, now, wall)
      modifies this, Footprint()
      ensures Valid() && fresh(Footprint() - old(Footprint()))
      ensures nilReturns == old(nilReturns) + if isNil then 1 else 0
      ensures isNil <==> handler.deps.Ready?
      ensures handler.deliveries == old(handler.deliveries) + handler.Delivered(evt, now, wall)
      ensures metrics != null ==>
        var ingested := isNil && old(HandlerReason(evt, now, wall)) == None;
        metrics.ingestTotal == old(metrics.ingestTotal) + if ingested then 1 else 0
      ensures reporter != null ==>
        var reason := old(HandlerReason(evt, now, wall));
        reporter.dropped
        == if reason.Some? then Bumped(old(reporter.dropped), Label(reason.value)) else old(reporter.dropped)
    {
      hide Handler.Valid, Handler.Fileable, Handler.Abs, Handler.SetupOf, SumMap, Bumped, Label, Ingest.Handle,
           Ingest.ReasonOf;
      Unrelated(this, handler);
      if metrics != null { Unrelated(metrics, handler); }
      if reporter != null { Unrelated(reporter, handler); }
      var h := handler.Handle(evt, now, wall);
      if h == NotConfigured {
        return false;
      }
      var reason := Ingest.ReasonOf(h.result);
      if reason.Some? {
        Drop(reason.value);
        return true;
      }
      CountIngested();
      return true;
    }

    /** True for a nil return, false for an error the consumer has to retry. */
    method HandleRaw(payload: Payload, now: int, wall: int) returns (isNil: bool)
      requires Valid()
      requires handler != null && validator.Some? && validator.value(payload).Mapped?
               ==> handler.Fileable(validator.value(payload).evt, now, wall)
      modifies this, Footprint()
      ensures Valid() && fresh(Footprint() - old(Footprint()))
      ensures nilReturns == old(nilReturns) + if isNil then 1 else 0
      ensures isNil <==> Answers(payload)
      ensures isNil <==>
        validator.Some? && handler != null && (validator.value(payload).Mapped? ==> handler.deps.Ready?)
      ensures handler != null ==>
        handler.deliveries == old(handler.deliveries) + DeliveredBy(payload, now, wall)
      // a nil return moves exactly one counter by one, the right one; an error moves none
      ensures metrics != null ==>
        var ingested := isNil && old(DropReason(payload, now, wall)) == None;
        metrics.ingestTotal == old(metrics.ingestTotal) + if ingested then 1 else 0
      ensures reporter != null ==>
        var reason := old(DropReason(payload, now, wall));
        reporter.dropped
        == if reason.Some? then Bumped(old(reporter.dropped), Label(reason.value)) else old(reporter.dropped)
      ensures reporter != null ==> forall t ::
        var reason := old(DropReason(payload, now, wall));
        Get(reporter.dropped, t)
        == Get(old(reporter.dropped), t)
           + if reason.Some? && t == (if reason.value == "" then "UNKNOWN_REJECT_REASON" else reason.value) then 1
             else 0
    {
      hide Handler.Valid, Handler.Fileable, HandlerReason, SumMap, Bumped, Label, Get;
      if reporter != null { BumpCounts(reporter.dropped, DropReason(payload, now, wall)); }
      if validator == None || handler == null {
        return false;
      }
      match validator.value(payload) {
        case RejectError(reason) =>
          Drop(reason);
          return true;
        case OtherError =>
          Drop(UNKNOWN_REJECT);
          return true;
        case Mapped(evt) =>
          isNil := HandleEvent(evt, now, wall);
      }
    }
  }

  /** Counters are no part of a handler. */
  lemma {:induction false} Unrelated(o: object, h: Handler)
    requires o is Collector || o is RuntimeHandler
    ensures o !in {h} + h.Footprint()
  {
  }

  lemma {:induction false} NothingDropped()
    ensures SumMap(map[]) == 0
  {
  }

  lemma {:induction false} NothingAdded(handler: Handler)
    requires handler.Valid() && handler.deps.Ready? && handler.deliveries == []
    ensures handler.deps.engine.events == []
  {
  }

  /** What a drop does to each count, and that no drop does nothing. */
  lemma {:induction false} BumpCounts(counts: map<string, int>, reason: Option<RejectReason>)
    ensures reason.Some? ==> forall t ::
      Get(Bumped(counts, Label(reason.value)), t)
      == Get(counts, t) + if t == (if reason.value == "" then "UNKNOWN_REJECT_REASON" else reason.value) then 1 else 0
  {
  }

  lemma {:induction false} BumpedSum(counts: map<string, int>, tag: string)
    ensures SumMap(Bumped(counts, tag)) == SumMap(counts) + 1
  {
    SumMapSet(counts, tag, Get(counts, tag) + 1);
  }
}
