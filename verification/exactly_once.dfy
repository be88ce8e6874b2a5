/** At-least-once delivery and deduplication together: each committed event takes effect exactly once. */
module ExactlyOnce {
  import opened Prelude
  import opened Domain
  import opened Ingest
  import opened IngestHandler
  import opened RuntimeHandler
  import opened ConsumerProtocol

  // ----- deliveries of one id within the TTL leave what the first one would

  ghost predicate IsFirst(ds: seq<Delivery>, i: nat)
    requires i < |ds|
  {
    ds[i].evt.eventID == "" || forall j :: 0 <= j < i ==> ds[j].evt.eventID != ds[i].evt.eventID
  }

  /** One delivery per event id, the first; events without an id are all different. */
  ghost function Firsts(ds: seq<Delivery>): seq<Delivery> {
    if ds == [] then []
    else
      var n := |ds| - 1;
      if IsFirst(ds, n) then Firsts(ds[..n]) + [ds[n]] else Firsts(ds[..n])
  }

  /** Whatever is delivered again comes less than a TTL after. */
  ghost predicate InTime(ttl: int, ds: seq<Delivery>) {
    forall i, j :: 0 <= i < j < |ds| && ds[i].evt.eventID == ds[j].evt.eventID != ""
                   ==> ds[j].now < ds[i].now + ttl
  }

  lemma {:induction false} EarliestOf(ds: seq<Delivery>, j: nat) returns (k: nat)
    requires j < |ds| && ds[j].evt.eventID != ""
    ensures k <= j && ds[k].evt.eventID == ds[j].evt.eventID && IsFirst(ds, k)
  {
    k := 0;
    while ds[k].evt.eventID != ds[j].evt.eventID
      invariant k <= j && forall i :: 0 <= i < k ==> ds[i].evt.eventID != ds[j].evt.eventID
      decreases j - k
    {
      k := k + 1;
    }
  }

  lemma {:induction false} DuplicateAt(s: Setup, ds: seq<Delivery>, j: nat)
    requires Monotone(ds) && j < |ds|
    ensures var log := Run(s, ds).1;
      log[j].result == Duplicate
      <==> ds[j].evt.eventID != ""
           && exists i :: 0 <= i < j && ds[i].evt.eventID == ds[j].evt.eventID && log[i].result != Duplicate
                          && ds[j].now < ds[i].now + s.ttl
  {
    hide Handle, Run;
    var log := Run(s, ds).1;
    ResultAt(s, ds, j);
    LogPrefix(s, ds, j);
    assert ds[..j] + [ds[j]] == ds[..j + 1];
    DuplicateExact(s, ds[..j], ds[j]);
    assert forall i :: 0 <= i < j ==> log[..j][i] == log[i] && ds[..j][i] == ds[i];
  }

  lemma {:induction false} DuplicateIffNotFirst(s: Setup, ds: seq<Delivery>, j: nat)
    requires Monotone(ds) && InTime(s.ttl, ds) && j < |ds|
    ensures Run(s, ds).1[j].result == Duplicate <==> !IsFirst(ds, j)
  {
    hide Run;
    DuplicateAt(s, ds, j);
    if !IsFirst(ds, j) {
      var k := EarliestOf(ds, j);
      DuplicateAt(s, ds, k);
    }
  }

  lemma {:induction false} FirstsLast(ds: seq<Delivery>)
    ensures var n := |ds| - 1;
      Firsts(ds) == if ds == [] then [] else if IsFirst(ds, n) then Firsts(ds[..n]) + [ds[n]] else Firsts(ds[..n])
  {
  }

  lemma {:induction false} EarlierInTime(ttl: int, ds: seq<Delivery>, n: nat)
    requires Monotone(ds) && InTime(ttl, ds) && n <= |ds|
    ensures Monotone(ds[..n]) && InTime(ttl, ds[..n])
  {
  }

  lemma {:induction false} ProcessedAreFirsts(s: Setup, ds: seq<Delivery>)
    requires Monotone(ds) && InTime(s.ttl, ds)
    ensures DeliveriesOf(Processed(Run(s, ds).1)) == Firsts(ds)
  {
    hide Run, Handle, Processed, DeliveriesOf, IsFirst, Firsts, Monotone, InTime;
    FirstsLast(ds);
    if ds == [] {
      NothingProcessed(s);
    } else {
      var n := |ds| - 1;
      EarlierInTime(s.ttl, ds, n);
      ProcessedAreFirsts(s, ds[..n]);
      DuplicateIffNotFirst(s, ds, n);
      assert ds == ds[..n] + [ds[n]];
      RunAppend(s, ds[..n], ds[n]);
      ProcessedAppend(Run(s, ds[..n]).1, Run(s, ds).1[n]);
    }
  }

  /** Redeliveries within the TTL leave the aggregate and the anti-fraud state as one delivery each would. */
  lemma {:induction false} OneDeliveryEach(s: Setup, ds: seq<Delivery>)
    requires Monotone(ds) && InTime(s.ttl, ds)
    ensures Run(s, ds).0.added == Run(s, Firsts(ds)).0.added
    ensures Run(s, ds).0.fraud == Run(s, Firsts(ds)).0.fraud
  {
    hide Run, Processed, DeliveriesOf, Firsts, Monotone, InTime;
    DuplicatesErasable(s, ds);
    ProcessedAreFirsts(s, ds);
  }

  ghost predicate DistinctIDs(ds: seq<Delivery>) {
    forall i, j :: 0 <= i < j < |ds| && ds[i].evt.eventID != "" ==> ds[i].evt.eventID != ds[j].evt.eventID
  }

  ghost predicate HasID(ds: seq<Delivery>, id: string) { exists d :: d in ds && d.evt.eventID == id }

  lemma {:induction false} FirstsAreDistinct(ds: seq<Delivery>)
    ensures DistinctIDs(Firsts(ds))
    ensures forall id :: HasID(Firsts(ds), id) <==> HasID(ds, id)
  {
    if ds != [] {
      var n := |ds| - 1;
      FirstsAreDistinct(ds[..n]);
      assert ds == ds[..n] + [ds[n]];
      var before, id := Firsts(ds[..n]), ds[n].evt.eventID;
      assert IsFirst(ds, n) && id != "" ==> !HasID(ds[..n], id);
      assert !IsFirst(ds, n) ==> HasID(ds[..n], id);
      forall x ensures HasID(ds, x) <==> HasID(ds[..n], x) || x == id {
        if HasID(ds[..n], x) {
          var d :| d in ds[..n] && d.evt.eventID == x;
          assert d in ds;
        }
        if x == id { assert ds[n] in ds; }
      }
      forall x ensures HasID(before + [ds[n]], x) <==> HasID(before, x) || x == id {
        assert ds[n] in before + [ds[n]];
        if HasID(before, x) {
          var d :| d in before && d.evt.eventID == x;
          assert d in before + [ds[n]];
        }
      }
      forall i | 0 <= i < |before| ensures before[i].evt.eventID != id || id == "" || !IsFirst(ds, n) {
        assert HasID(before, before[i].evt.eventID) by { assert before[i] in before; }
      }
    }
  }

  // ----- what any number of consumer runs feed to one live pipeline

  /** The messages whose handling succeeded, run after run. */
  function Successes(runs: seq<seq<Action>>): seq<Message> {
    if runs == [] then [] else Successes(runs[..|runs| - 1]) + HandledOk(runs[|runs| - 1])
  }

  /** The events among them. */
  function Events(validate: Payload -> Validated, ms: seq<Message>): seq<SearchEvent> {
    if ms == [] then []
    else
      var v := validate(ms[|ms| - 1].value);
      Events(validate, ms[..|ms| - 1]) + if v.Mapped? then [v.evt] else []
  }

  function EventsDelivered(ds: seq<Delivery>): seq<SearchEvent> {
    seq(|ds|, i requires 0 <= i < |ds| => ds[i].evt)
  }

  /** The pipeline has been handed exactly what the consumer runs handled with success. */
  ghost predicate Fed(rh: RuntimeHandler, runs: seq<seq<Action>>)
    reads if rh.handler != null then {rh.handler} else {}
  {
    && rh.validator.Some? && rh.handler != null
    && EventsDelivered(rh.handler.deliveries) == Events(rh.validator.value, Successes(runs))
  }

  lemma {:induction false} SuccessesAppend(runs: seq<seq<Action>>, run: seq<Action>, a: Action)
    ensures Successes(runs + [run + [a]])
         == if a.Handled? && a.ok then Successes(runs + [run]) + [a.m] else Successes(runs + [run])
  {
    assert (runs + [run])[..|runs|] == runs && (runs + [run + [a]])[..|runs|] == runs;
    assert (run + [a])[..|run|] == run;
  }

  lemma {:induction false} EventsAppend(validate: Payload -> Validated, ms: seq<Message>, m: Message)
    ensures Events(validate, ms + [m])
         == if validate(m.value).Mapped? then Events(validate, ms) + [validate(m.value).evt] else Events(validate, ms)
  {
    assert (ms + [m])[..|ms|] == ms;
  }

  lemma {:induction false} DeliveredAppend(ds: seq<Delivery>, more: seq<Delivery>)
    ensures EventsDelivered(ds + more) == EventsDelivered(ds) + EventsDelivered(more)
  {
  }

  lemma {:induction false} DeliveredIfNil(rh: RuntimeHandler, m: Message, now: int, wall: int)
    requires rh.validator.Some? && rh.handler != null
    ensures EventsDelivered(rh.DeliveredBy(m.value, now, wall))
         == if rh.Answers(m.value) && rh.validator.value(m.value).Mapped? then [rh.validator.value(m.value).evt] else []
  {
  }

  /** One handler call of a run: what it hands on keeps pace with what it reports. */
  method HandleMessage(rh: RuntimeHandler, m: Message, now: int, wall: int, ghost runs: seq<seq<Action>>,
                       ghost run: seq<Action>)
    returns (ok: bool)
    requires rh.Valid() && Fed(rh, runs + [run])
    requires rh.validator.value(m.value).Mapped? ==> rh.handler.Fileable(rh.validator.value(m.value).evt, now, wall)
    modifies rh, rh.Footprint()
    ensures rh.Valid() && Fed(rh, runs + [run + [Handled(m, ok)]])
  {
    hide RuntimeHandler.Valid, Handler.Fileable, Events, Successes, EventsDelivered, RuntimeHandler.DeliveredBy,
         Bumped, Label;
    ghost var before := rh.handler.deliveries;
    ok := rh.HandleRaw(m.value, now, wall);
    SuccessesAppend(runs, run, Handled(m, ok));
    EventsAppend(rh.validator.value, Successes(runs + [run]), m);
    DeliveredIfNil(rh, m, now, wall);
    DeliveredAppend(before, rh.DeliveredBy(m.value, now, wall));
    assert EventsDelivered(before) + [] == EventsDelivered(before);
  }

  lemma {:induction false} MappedIsEvent(validate: Payload -> Validated, ms: seq<Message>, m: Message)
    requires m in ms && validate(m.value).Mapped?
    ensures validate(m.value).evt in Events(validate, ms)
  {
    var n := |ms| - 1;
    assert ms == ms[..n] + [ms[n]];
    if m != ms[n] { MappedIsEvent(validate, ms[..n], m); }
  }

  lemma {:induction false} CommittedSucceeded(
    c: ConsumerProtocol.Config, runs: seq<seq<Action>>, run: seq<Action>, m: Message)
    requires run in runs && Follows(c, run) && m in CommittedOk(run)
    ensures m in Successes(runs)
  {
    hide CommittedOk, HandledOk, Fetches, PhaseAfter;
    var n := |runs| - 1;
    if run == runs[n] {
      AtLeastOnce(c, run, |run|);
      assert run[..|run|] == run;
    } else {
      assert runs == runs[..n] + [runs[n]];
      CommittedSucceeded(c, runs[..n], run, m);
    }
  }

  /**
   However often the consumer is restarted over one live pipeline, and whatever is delivered again within
   the TTL: the aggregate and the anti-fraud state are those of one delivery per event id, and the event of
   every committed message is among these deliveries.
   */
  lemma {:induction false} CommittedOnce(c: ConsumerProtocol.Config, rh: RuntimeHandler, runs: seq<seq<Action>>)
    requires rh.Valid() && Fed(rh, runs) && rh.handler.deps.Ready?
    requires forall run :: run in runs ==> Follows(c, run)
    requires var ds := rh.handler.deliveries; Monotone(ds) && InTime(rh.handler.deps.store.ttl, ds)
    ensures var h := rh.handler;
      var once := Firsts(h.deliveries);
      && h.deps.engine.events == Run(h.SetupOf(), once).0.added
      && h.deps.fraud.Abs() == Run(h.SetupOf(), once).0.fraud
      && DistinctIDs(once)
      && forall run, m :: run in runs && m in CommittedOk(run) && rh.validator.value(m.value).Mapped?
           ==> HasID(once, rh.validator.value(m.value).evt.eventID)
  {
    hide Run, Firsts, Monotone, InTime, DistinctIDs, Follows, CommittedOk, Successes, Events;
    var h := rh.handler;
    var ds := h.deliveries;
    OneDeliveryEach(h.SetupOf(), ds);
    FirstsAreDistinct(ds);
    forall run, m | run in runs && m in CommittedOk(run) && rh.validator.value(m.value).Mapped?
      ensures HasID(Firsts(ds), rh.validator.value(m.value).evt.eventID)
    {
      CommittedSucceeded(c, runs, run, m);
      MappedIsEvent(rh.validator.value, Successes(runs), m);
      var i :| 0 <= i < |EventsDelivered(ds)| && EventsDelivered(ds)[i] == rh.validator.value(m.value).evt;
      assert ds[i] in ds;
    }
  }
}
