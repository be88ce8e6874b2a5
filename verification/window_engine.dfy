/** The sliding-window engine: buckets, totals and cached ranking updated in place. */
module WindowEngine {
  import opened Prelude
  import opened WindowHistory
  import opened WindowRing
  import opened Ranking
  import opened SnapshotBuilder

  const DEFAULT_WINDOW_SECONDS: int := 300
  const DEFAULT_TOP: int := 10
  const REBUILD_INTERVAL: int := 250 * MILLISECOND

  /** Asked of an engine whose cache is stale. */
  predicate RebuildDue(lastRebuildAt: Option<int>, now: int) {
    lastRebuildAt == None || now - lastRebuildAt.value >= REBUILD_INTERVAL
  }

  class Engine {
    const windowSeconds: int
    const buckets: array<Bucket>
    var totals: map<string, int>
    var cached: seq<TopItem>
    var dirty: bool
    var lastRebuildAt: Option<int>

    ghost var events: seq<Event>  // everything ever added
    ghost var alive: seq<Event>  // what the ring currently stores
    ghost var removed: int  // score taken out of the totals so far

    ghost predicate Consistent()
      reads this, buckets
    {
      && windowSeconds > 0
      && Positive(events)
      && Positive(alive) && Uniform(windowSeconds, alive)
      && Stores(windowSeconds, buckets[..], alive)
      && totals == ScoreMap(alive)
    }

    ghost predicate Valid()
      reads this, buckets
    {
      && Consistent()
      && alive == Survivors(windowSeconds, events)
      && removed + Mass(alive) == Mass(events)
      && (!dirty ==> IsRanking(totals, cached))
    }

    constructor (requested: int)
      ensures Valid() && fresh(buckets)
      ensures windowSeconds == if requested > 0 then requested else 300
      ensures events == [] && removed == 0
    {
      var w := if requested <= 0 then DEFAULT_WINDOW_SECONDS else requested;
      windowSeconds := w;
      buckets := new Bucket[w](_ => Bucket(0, map[]));
      totals, cached, dirty, lastRebuildAt := map[], [], true, None;
      events, alive, removed := [], [], 0;
    }

    /** Takes one bucket's counts out of the totals, in any iteration order. */
    method RemoveContribution(counts: map<string, int>)
      modifies `totals, `removed
      ensures totals == Subtract(old(totals), counts)
      ensures removed == old(removed) + SumMap(counts)
    {
      hide SubtractKeys;
      var keys := counts.Keys;
      assert counts.Keys - keys == {};
      SubtractNone(totals, counts);
      while keys != {}
        invariant keys <= counts.Keys
        invariant totals == SubtractKeys(old(totals), counts, counts.Keys - keys)
        invariant removed + SumOver(counts, keys) == old(removed) + SumMap(counts)
        decreases keys
      {
        var query :| query in keys;
        var total := Get(totals, query) - counts[query];
        SumOverAny(counts, keys, query);
        SubtractOneMore(old(totals), counts, counts.Keys - keys, query);
        removed := removed + counts[query];
        if total <= 0 {
          totals := totals - {query};
        } else {
          totals := totals[query := total];
        }
        assert counts.Keys - (keys - {query}) == counts.Keys - keys + {query};
        keys := keys - {query};
      }
      assert counts.Keys - {} == counts.Keys;
    }

    method EmptyBucket(i: int)
      requires Consistent() && 0 <= i < windowSeconds
      modifies `totals, `removed, `alive, buckets
      ensures Consistent()
      ensures alive == Filter(old(alive), Not(InSlot(windowSeconds, i)))
      ensures removed + Mass(alive) == old(removed) + Mass(old(alive))
    {
      hide Filter, ScoreMap, Subtract, SumMap, Mass, Uniform, Positive;
      DropSlot(windowSeconds, alive, i);
      ghost var slot := SlotOf(windowSeconds, alive, i);
      assert buckets[i] == BucketOf(slot);
      assert buckets[i].counts == ScoreMap(slot) by { ScoresEmpty(slot); }
      SumScores(slot);
      RemoveContribution(buckets[i].counts);
      buckets[i] := Bucket(0, map[]);
      alive := Filter(alive, Not(InSlot(windowSeconds, i)));
    }

    method EvictExpired(currentSecond: int)
      requires Consistent()
      modifies `totals, `removed, `alive, buckets
      ensures Consistent()
      ensures alive == Filter(old(alive), Kept(windowSeconds, currentSecond, windowSeconds))
      ensures removed + Mass(alive) == old(removed) + Mass(old(alive))
    {
      hide Filter, ScoreMap, Mass, Uniform, Positive, BucketOf, SlotOf, InSlot;
      FilterAll(alive, Kept(windowSeconds, currentSecond, 0));
      for i := 0 to windowSeconds
        invariant Consistent()
        invariant alive == Filter(old(alive), Kept(windowSeconds, currentSecond, i))
        invariant removed + Mass(alive) == old(removed) + Mass(old(alive))
      {
        EvictStep(windowSeconds, old(alive), currentSecond, i);
        assert buckets[i] == BucketOf(SlotOf(windowSeconds, alive, i));
        if buckets[i].epochSecond != 0 && currentSecond - buckets[i].epochSecond >= windowSeconds {
          EmptyBucket(i);
        }
      }
    }

    /** Counts one score in its bucket and in the totals; the slot holds this second or nothing. */
    method CountIn(idx: int, e: Event)
      requires Consistent() && e.query != "" && e.score > 0 && idx == e.sec % windowSeconds
      requires forall x :: x in alive && x.sec % windowSeconds == idx ==> x.sec == e.sec
      modifies `totals, `alive, buckets
      ensures alive == old(alive) + [e]
      ensures Consistent()
    {
      hide Filter, ScoreMap, BucketOf, SlotOf, Uniform, Positive;
      AppendStores(windowSeconds, alive, e);
      JoinsUniformly(windowSeconds, alive, e);
      assert buckets[idx] == BucketOf(SlotOf(windowSeconds, alive, idx));
      if buckets[idx].epochSecond != e.sec {
        buckets[idx] := Bucket(e.sec, map[]);
      }
      var counts := buckets[idx].counts;
      buckets[idx] := Bucket(e.sec, counts[e.query := Get(counts, e.query) + e.score]);
      totals := totals[e.query := Get(totals, e.query) + e.score];
      alive := alive + [e];
    }

    method Rebuild(now: int)
      requires Valid()
      modifies `cached, `lastRebuildAt, `dirty
      ensures Valid() && !dirty && IsRanking(totals, cached) && lastRebuildAt == Some(now)
    {
      hide IsRanking, Survivors;
      cached := Build(totals);
      AllListed(alive);
      lastRebuildAt := Some(now);
      dirty := false;
    }

    /** Eviction, clearing of the slot and counting together realise one more addition to the history. */
    method File(e: Event)
      requires Valid() && e.query != "" && e.score > 0
      modifies `totals, `removed, `alive, `events, `dirty, buckets
      ensures Valid() && dirty
      ensures events == old(events) + [e]
    {
      hide Filter, Mass, Uniform, Positive, BucketOf, SlotOf, InSlot, Survivors, IsRanking, ScoreMap;
      EvictThenClear(windowSeconds, alive, e.sec);
      EvictExpired(e.sec);
      var idx := e.sec % windowSeconds;
      assert buckets[idx] == BucketOf(SlotOf(windowSeconds, alive, idx));
      if buckets[idx].epochSecond != e.sec {
        EmptyBucket(idx);
      }
      SparedShareSecond(windowSeconds, old(alive), e.sec);
      CountIn(idx, e);
      MassAppend(Filter(old(alive), Spared(windowSeconds, e.sec)), e);
      MassAppend(old(events), e);
      SurvivorsAppend(windowSeconds, old(events), e);
      events := events + [e];
      assert Positive(events) by { StaysPositive(old(events), e); }
      dirty := true;
    }

    method Add(query: string, score: int, ingestedAtMS: int, now: int)
      requires Valid()
      requires forall e :: e in AddedBy(query, score, ingestedAtMS, now) ==> Indexable(windowSeconds, e.sec)
      modifies this, buckets
      ensures Valid()
      ensures events == old(events) + AddedBy(query, score, ingestedAtMS, now)
      // one more event, filed under its own second, or under the clock's if its stamp is below a second
      ensures query != "" && score > 0 ==>
        && |events| == |old(events)| + 1
        && var e := events[|old(events)|];
           && e.query == query && e.score == score
           && if ingestedAtMS >= 1000 then 1000 * e.sec <= ingestedAtMS < 1000 * (e.sec + 1)
              else 1_000_000_000 * e.sec <= now < 1_000_000_000 * (e.sec + 1)
      ensures query == "" || score <= 0 ==> unchanged(this) && unchanged(buckets)
      // the cached ranking is refreshed at most once per interval, otherwise left and marked stale
      ensures query != "" && score > 0 ==>
        if old(lastRebuildAt) == None || now - old(lastRebuildAt).value >= 250_000_000 then
          !dirty && lastRebuildAt == Some(now)
        else dirty && lastRebuildAt == old(lastRebuildAt) && cached == old(cached)
    {
      hide Consistent, Survivors, Mass, Positive, IsRanking;
      if query == "" || score <= 0 {
        return;
      }
      var sec := ingestedAtMS / 1000;
      if sec <= 0 {
        sec := UnixSecond(now);
      }
      File(Event(query, score, sec));
      if RebuildDue(lastRebuildAt, now) {
        Rebuild(now);
      }
    }

    /** The top list read out is the head of the one ranking of the current totals. */
    method Snapshot(n: int, now: int) returns (items: seq<TopItem>)
      requires Valid()
      modifies `cached, `lastRebuildAt, `dirty
      ensures Valid() && !dirty && IsRanking(totals, cached)
      ensures totals == old(totals) && events == old(events) && |cached| == |totals|
      ensures if old(dirty) then lastRebuildAt == Some(now)
              else cached == old(cached) && lastRebuildAt == old(lastRebuildAt)
      ensures var wanted := if n > 0 then n else 10;
        items == cached[..if wanted < |totals| then wanted else |totals|]
      // so: ranks from 1, totals going down, and among equal totals the lesser query first, character by character
      ensures forall i :: 0 <= i < |items| ==>
        && items[i].rank == i + 1 && items[i].query in totals
        && items[i].score == items[i].count == totals[items[i].query]
      ensures forall i, j :: 0 <= i < j < |items| ==>
        || items[i].score > items[j].score
        || (items[i].score == items[j].score
            && exists k :: 0 <= k <= |items[i].query| && k < |items[j].query|
                           && items[i].query[..k] == items[j].query[..k]
                           && (k == |items[i].query| || items[i].query[k] < items[j].query[k]))
    {
      hide Consistent, Survivors, Mass, Positive, IsRanking;
      var wanted := if n <= 0 then DEFAULT_TOP else n;
      if dirty {
        Rebuild(now);
      }
      RankingLength(totals, cached);
      if wanted > |cached| {
        wanted := |cached|;
      }
      items := cached[..wanted];
      RankingShows(totals, cached, wanted);
    }
  }

  lemma {:induction false} HasBuckets(e: Engine)
    requires e.Valid()
    ensures e.windowSeconds > 0
  {
  }

  lemma {:induction false} AllListed(es: seq<Event>)
    requires Positive(es)
    ensures Listed(ScoreMap(es)) == ScoreMap(es)
  {
    hide Total;
    forall query | query in ScoreMap(es) ensures ScoreMap(es)[query] > 0 { TotalPositive(es, query); }
  }

  lemma {:induction false} SparedShareSecond(w: int, es: seq<Event>, c: int)
    requires w > 0
    ensures forall x :: x in Filter(es, Spared(w, c)) && x.sec % w == c % w ==> x.sec == c
  {
    hide Filter;
    forall x | x in Filter(es, Spared(w, c)) && x.sec % w == c % w ensures x.sec == c {
      FilterMembers(es, Spared(w, c), x);
    }
  }

  lemma {:induction false} StaysPositive(es: seq<Event>, e: Event)
    requires Positive(es) && e.query != "" && e.score > 0
    ensures Positive(es + [e])
  {
  }
}
