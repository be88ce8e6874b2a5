/** When the survivors are the textbook sliding window, and what leaves it. */
module WindowTheorems {
  import opened Prelude
  import opened WindowHistory
  import opened WindowRing
  import opened WindowEngine

  function MaxSec(evs: seq<Event>): int
    requires evs != []
  {
    var n := |evs| - 1;
    if n == 0 then evs[0].sec
    else
      var m := MaxSec(evs[..n]);
      if evs[n].sec > m then evs[n].sec else m
  }

  lemma {:induction false} MaxSecBounds(evs: seq<Event>) returns (k: nat)
    requires evs != []
    ensures k < |evs| && evs[k].sec == MaxSec(evs)
    ensures forall i :: 0 <= i < |evs| ==> evs[i].sec <= MaxSec(evs)
  {
    var n := |evs| - 1;
    if n == 0 {
      k := 0;
    } else {
      k := MaxSecBounds(evs[..n]);
      forall i | 0 <= i < |evs| ensures evs[i].sec <= MaxSec(evs) {
        if i < n { assert evs[i] == evs[..n][i]; }
      }
      if evs[n].sec > MaxSec(evs[..n]) { k := n; }
    }
  }

  function After(cutoff: int): Event -> bool { (e: Event) => e.sec > cutoff }

  /** The textbook window: everything in the last `w` seconds up to the newest second seen. */
  function WindowOf(w: int, evs: seq<Event>): seq<Event> {
    if evs == [] then [] else Filter(evs, After(MaxSec(evs) - w))
  }

  /** No addition arrives a full window behind the newest second seen before it. */
  ghost predicate OnTime(w: int, evs: seq<Event>) {
    forall j, k :: 0 <= j < k < |evs| ==> evs[k].sec > evs[j].sec - w
  }

  /** A later addition took over the slot for another second. */
  ghost predicate Displaced(w: int, evs: seq<Event>, k: int)
    requires w > 0 && 0 <= k < |evs|
  {
    exists j :: k < j < |evs| && evs[j].sec % w == evs[k].sec % w && evs[j].sec != evs[k].sec
  }

  /** What is filed under second zero loses its slot no later than its window ends. */
  ghost predicate ZeroEnds(w: int, evs: seq<Event>)
    requires w > 0
  {
    forall k, j :: 0 <= k < j < |evs| && evs[k].sec == 0 && evs[j].sec >= w ==> Displaced(w, evs[..j + 1], k)
  }

  ghost predicate Steady(w: int, evs: seq<Event>)
    requires w > 0
  {
    OnTime(w, evs) && ZeroEnds(w, evs)
  }

  /** Without second zero, being on time is all there is to it. */
  lemma {:induction false} DatedSteady(w: int, evs: seq<Event>)
    requires w > 0 && forall e :: e in evs ==> e.sec != 0
    ensures Steady(w, evs) <==> OnTime(w, evs)
  {
    assert forall k :: 0 <= k < |evs| ==> evs[k] in evs;
  }

  lemma {:induction false} LiveIffRecent(w: int, evs: seq<Event>, k: nat)
    requires w > 0 && Steady(w, evs) && k < |evs|
    ensures Live(w, evs, k) <==> evs[k].sec > MaxSec(evs) - w
  {
    hide MaxSec;
    var top := MaxSecBounds(evs);
    if evs[k].sec > MaxSec(evs) - w {
      forall j | k < j < |evs| ensures !Kills(w, evs[j].sec, evs[k].sec) {
        NearbySlots(w, evs[j].sec, evs[k].sec);
      }
    } else if k < top {
      if evs[k].sec == 0 {
        var upTo := evs[..top + 1];
        var j :| k < j < |upTo| && upTo[j].sec % w == upTo[k].sec % w && upTo[j].sec != upTo[k].sec;
        assert Kills(w, evs[j].sec, evs[k].sec);
      } else {
        assert Kills(w, evs[top].sec, evs[k].sec);
      }
    }
  }

  /** Distinct seconds less than a window apart never share a slot. */
  lemma {:induction false} NearbySlots(w: int, a: int, b: int)
    requires w > 0 && a - b < w && b - a < w
    ensures a % w == b % w ==> a == b
  {
    if a % w == b % w {
      var q := a / w - b / w;
      assert a - b == q * w;
      MulBounds(q, w);
    }
  }

  lemma {:induction false} MulBounds(q: int, w: int)
    requires w > 0
    ensures q >= 1 ==> q * w >= w
    ensures q <= -1 ==> q * w <= -w
  {
  }

  lemma {:induction false} LiveToIsFilter(w: int, evs: seq<Event>, n: nat)
    requires w > 0 && Steady(w, evs) && evs != [] && n <= |evs|
    ensures LiveTo(w, evs, n) == Filter(evs[..n], After(MaxSec(evs) - w))
  {
    hide Live, MaxSec, Steady;
    if n > 0 {
      LiveToIsFilter(w, evs, n - 1);
      LiveIffRecent(w, evs, n - 1);
      LiveToLast(w, evs, n);
      assert evs[..n][..n - 1] == evs[..n - 1];
      FilterLast(evs[..n], After(MaxSec(evs) - w));
    }
  }

  lemma {:induction false} SlidingWindow(w: int, evs: seq<Event>)
    requires w > 0 && Steady(w, evs)
    ensures Survivors(w, evs) == WindowOf(w, evs)
  {
    hide Steady;
    if evs != [] {
      LiveToIsFilter(w, evs, |evs|);
      assert evs[..|evs|] == evs;
    }
  }

  /** A late addition is counted although the window it belongs to is over. */
  lemma {:induction false} LateIsCounted(w: int, evs: seq<Event>, j: nat, k: nat)
    requires w > 0 && j < k < |evs| && evs[k].sec <= evs[j].sec - w
    ensures Survivors(w, evs[..k + 1]) != WindowOf(w, evs[..k + 1])
  {
    hide MaxSec, Filter, Kills;
    var upTo := evs[..k + 1];
    var top := MaxSecBounds(upTo);
    assert upTo[j] == evs[j] && upTo[k] == evs[k];
    assert upTo == upTo[..k] + [evs[k]];
    SurvivorsAppend(w, upTo[..k], evs[k]);
    assert evs[k] in Survivors(w, upTo);
    FilterMembers(upTo, After(MaxSec(upTo) - w), evs[k]);
  }

  lemma {:induction false} LiveIsHeld(w: int, evs: seq<Event>, n: nat, k: nat)
    requires w > 0 && k < n <= |evs| && Live(w, evs, k)
    ensures evs[k] in LiveTo(w, evs, n)
  {
    hide Live;
    LiveToLast(w, evs, n);
    if k < n - 1 { LiveIsHeld(w, evs, n - 1, k); }
  }

  /** An addition filed under second zero is counted when its window is over, unless its slot was taken. */
  lemma {:induction false} ZeroIsCounted(w: int, evs: seq<Event>, k: nat, j: nat)
    requires w > 0 && k < j < |evs| && evs[k].sec == 0 && evs[j].sec >= w && !Displaced(w, evs[..j + 1], k)
    ensures Survivors(w, evs[..j + 1]) != WindowOf(w, evs[..j + 1])
  {
    hide MaxSec, Filter, LiveTo;
    var upTo := evs[..j + 1];
    var top := MaxSecBounds(upTo);
    assert upTo[j] == evs[j] && upTo[k] == evs[k];
    assert Live(w, upTo, k);
    LiveIsHeld(w, upTo, |upTo|, k);
    FilterMembers(upTo, After(MaxSec(upTo) - w), evs[k]);
  }

  lemma {:induction false} SteadyBefore(w: int, evs: seq<Event>, p: nat)
    requires w > 0 && Steady(w, evs) && p <= |evs|
    ensures Steady(w, evs[..p])
  {
    hide Displaced;
    forall k, j | 0 <= k < j < p && evs[k].sec == 0 && evs[j].sec >= w
      ensures Displaced(w, evs[..p][..j + 1], k)
    {
      assert evs[..p][..j + 1] == evs[..j + 1];
    }
  }

  /**
   The engine holds exactly the last `w` seconds at every moment of a history if and only if nothing
   in that history arrives a full window late or outlives its window under second zero.
   */
  lemma {:induction false} SlidingWindowExact(w: int, evs: seq<Event>)
    requires w > 0
    ensures (forall p :: 0 <= p <= |evs| ==> Survivors(w, evs[..p]) == WindowOf(w, evs[..p])) <==> Steady(w, evs)
  {
    hide Survivors, WindowOf, Displaced;
    if Steady(w, evs) {
      forall p | 0 <= p <= |evs| ensures Survivors(w, evs[..p]) == WindowOf(w, evs[..p]) {
        SteadyBefore(w, evs, p);
        SlidingWindow(w, evs[..p]);
      }
    } else if !OnTime(w, evs) {
      var j, k :| 0 <= j < k < |evs| && evs[k].sec <= evs[j].sec - w;
      LateIsCounted(w, evs, j, k);
    } else {
      var k, j :| 0 <= k < j < |evs| && evs[k].sec == 0 && evs[j].sec >= w && !Displaced(w, evs[..j + 1], k);
      ZeroIsCounted(w, evs, k, j);
    }
  }

  /**
   With nothing late, the slot of a new second is already of that second or reads as empty; and it is empty,
   unless something was filed under second zero.
   */
  lemma {:induction false} CollisionFindsNothing(w: int, evs: seq<Event>, e: Event)
    requires w > 0 && OnTime(w, evs + [e])
    ensures var b := BucketOf(SlotOf(w, Filter(Survivors(w, evs), Kept(w, e.sec, w)), e.sec % w));
      && (b.epochSecond == e.sec || b.epochSecond == 0)
      && ((forall x :: x in evs ==> x.sec != 0) ==> b.epochSecond == e.sec || b == Bucket(0, map[]))
  {
    hide Filter, Survivors;
    var aged := Filter(Survivors(w, evs), Kept(w, e.sec, w));
    var slot := SlotOf(w, aged, e.sec % w);
    if slot != [] {
      var x := slot[0];
      assert x in slot;
      FilterMembers(aged, InSlot(w, e.sec % w), x);
      FilterMembers(Survivors(w, evs), Kept(w, e.sec, w), x);
      SurvivorIsNear(w, evs, e, x);
      if x.sec != 0 { NearbySlots(w, e.sec, x.sec); }
    }
  }

  lemma {:induction false} SurvivorIsNear(w: int, evs: seq<Event>, e: Event, x: Event)
    requires w > 0 && OnTime(w, evs + [e]) && x in Survivors(w, evs)
    ensures x.sec - e.sec < w && x in evs
  {
    hide Live;
    var k := SurvivorIndex(w, evs, |evs|, x);
    var all := evs + [e];
    assert all[k] == x && all[|evs|] == e;
  }

  lemma {:induction false} SurvivorIndex(w: int, evs: seq<Event>, n: nat, x: Event) returns (k: nat)
    requires w > 0 && n <= |evs| && x in LiveTo(w, evs, n)
    ensures k < n && evs[k] == x && Live(w, evs, k)
  {
    hide Live;
    LiveToLast(w, evs, n);
    if Live(w, evs, n - 1) && evs[n - 1] == x {
      k := n - 1;
    } else {
      k := SurvivorIndex(w, evs, n - 1, x);
    }
  }

  // ----- totals and buckets

  function SumBuckets(buckets: seq<Bucket>, query: string): int {
    if buckets == [] then 0
    else SumBuckets(buckets[..|buckets| - 1], query) + Get(buckets[|buckets| - 1].counts, query)
  }

  function SlotBelow(w: int, n: int): Event -> bool
    requires w > 0
  {
    (e: Event) => e.sec % w < n
  }

  /** The additions in the first `n` slots are counted by the first `n` buckets. */
  lemma {:induction false} FirstBuckets(w: int, buckets: seq<Bucket>, es: seq<Event>, query: string, n: nat)
    requires w > 0 && Stores(w, buckets, es) && n <= w
    ensures SumBuckets(buckets[..n], query) == Total(Filter(es, SlotBelow(w, n)), query)
  {
    hide Filter, Total;
    if n == 0 {
      FilterNone(es, SlotBelow(w, 0));
      AbsentIsZero([], query);
    } else {
      FirstBuckets(w, buckets, es, query, n - 1);
      assert buckets[..n][..n - 1] == buckets[..n - 1];
      var below := Filter(es, SlotBelow(w, n));
      TotalSplit(below, InSlot(w, n - 1), query);
      FilterTwice(es, SlotBelow(w, n), InSlot(w, n - 1));
      FilterAgree(es, Both(SlotBelow(w, n), InSlot(w, n - 1)), InSlot(w, n - 1));
      FilterTwice(es, SlotBelow(w, n), Not(InSlot(w, n - 1)));
      FilterAgree(es, Both(SlotBelow(w, n), Not(InSlot(w, n - 1))), SlotBelow(w, n - 1));
      BucketTotal(SlotOf(w, es, n - 1), query);
    }
  }

  lemma {:induction false} BucketTotal(slot: seq<Event>, query: string)
    ensures Get(BucketOf(slot).counts, query) == Total(slot, query)
  {
    AbsentIsZero(slot, query);
  }

  /** A query's total is the sum of its counts over the buckets. */
  lemma {:induction false} TotalsAreBucketSums(e: Engine, query: string)
    requires e.Valid()
    ensures Get(e.totals, query) == SumBuckets(e.buckets[..], query)
  {
    hide Total, Survivors, Filter;
    var w, all := e.windowSeconds, e.buckets[..];
    FirstBuckets(w, all, e.alive, query, w);
    assert all[..w] == all;
    FilterAll(e.alive, SlotBelow(w, w));
    AbsentIsZero(e.alive, query);
  }

  /** Conservation: what was added is what the totals still hold plus what was taken out of buckets. */
  lemma {:induction false} ScoreConserved(e: Engine)
    requires e.Valid()
    ensures Mass(e.events) == SumMap(e.totals) + e.removed
  {
    hide SumMap, Survivors, Mass;
    SumScores(e.alive);
  }
}
