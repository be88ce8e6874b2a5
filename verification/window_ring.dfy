/** How the ring of per-second buckets stores the surviving additions. */
module WindowRing {
  import opened Prelude
  import opened WindowHistory

  datatype Bucket = Bucket(epochSecond: int, counts: map<string, int>)

  function InSlot(w: int, i: int): Event -> bool
    requires w > 0
  {
    (e: Event) => e.sec % w == i
  }

  function SlotOf(w: int, es: seq<Event>, i: int): seq<Event>
    requires w > 0
  {
    Filter(es, InSlot(w, i))
  }

  /** A bucket carries the one second its additions share, an empty one second 0. */
  function BucketOf(slot: seq<Event>): Bucket {
    if slot == [] then Bucket(0, map[]) else Bucket(slot[0].sec, ScoreMap(slot))
  }

  ghost predicate Stores(w: int, buckets: seq<Bucket>, es: seq<Event>)
    requires w > 0
  {
    && |buckets| == w
    && (forall i :: 0 <= i < w ==> buckets[i] == BucketOf(SlotOf(w, es, i)))
  }

  /** Emptying slot `i` removes exactly its additions, from the totals too, and no other slot notices. */
  lemma {:induction false} DropSlot(w: int, es: seq<Event>, i: int)
    requires w > 0 && Positive(es) && Uniform(w, es)
    ensures var rest := Filter(es, Not(InSlot(w, i)));
      && ScoreMap(rest) == Subtract(ScoreMap(es), ScoreMap(SlotOf(w, es, i)))
      && Mass(es) == Mass(SlotOf(w, es, i)) + Mass(rest)
      && Positive(rest) && Uniform(w, rest)
      && SlotOf(w, rest, i) == []
      && (forall j :: j != i ==> SlotOf(w, rest, j) == SlotOf(w, es, j))
  {
    hide Filter, Mass, ScoreMap, Subtract;
    var rest := Filter(es, Not(InSlot(w, i)));
    SubtractPart(es, InSlot(w, i));
    MassSplit(es, InSlot(w, i));
    FilterPositive(es, Not(InSlot(w, i)));
    forall e | e in rest ensures e in es && e.sec % w != i { FilterMembers(es, Not(InSlot(w, i)), e); }
    FilterNone(rest, InSlot(w, i));
    forall j | j != i ensures SlotOf(w, rest, j) == SlotOf(w, es, j) {
      FilterTwice(es, Not(InSlot(w, i)), InSlot(w, j));
      FilterAgree(es, Both(Not(InSlot(w, i)), InSlot(w, j)), InSlot(w, j));
    }
  }

  /** What eviction keeps once it has visited the first `n` buckets. */
  function Kept(w: int, c: int, n: int): Event -> bool
    requires w > 0
  {
    (e: Event) => !(e.sec % w < n && e.sec != 0 && c - e.sec >= w)
  }

  lemma {:induction false} SlotSecond(w: int, es: seq<Event>, i: int, e: Event)
    requires w > 0 && Positive(es) && Uniform(w, es)
    requires e in es && e.sec % w == i
    ensures BucketOf(SlotOf(w, es, i)).epochSecond == e.sec
  {
    hide Filter;
    var slot := SlotOf(w, es, i);
    FilterMembers(es, InSlot(w, i), e);
    assert slot[0] in slot;
    FilterMembers(es, InSlot(w, i), slot[0]);
  }

  lemma {:induction false} EmptySlot(w: int, es: seq<Event>, i: int)
    requires w > 0
    ensures SlotOf(w, es, i) == [] ==> BucketOf(SlotOf(w, es, i)).epochSecond == 0
    ensures SlotOf(w, es, i) == [] <==> forall e :: e in es ==> e.sec % w != i
  {
    hide Filter;
    var slot := SlotOf(w, es, i);
    if slot != [] {
      assert slot[0] in slot;
      FilterMembers(es, InSlot(w, i), slot[0]);
    }
    forall e | e in es && e.sec % w == i ensures e in slot { FilterMembers(es, InSlot(w, i), e); }
  }

  /** Visiting one more bucket: it is emptied exactly if it holds something a window old. */
  lemma {:induction false} EvictStep(w: int, es: seq<Event>, c: int, i: int)
    requires 0 <= i < w && Positive(es) && Uniform(w, es)
    ensures var before := Filter(es, Kept(w, c, i));
      var b := BucketOf(SlotOf(w, before, i));
      && Positive(before) && Uniform(w, before)
      && Filter(es, Kept(w, c, i + 1))
         == if b.epochSecond != 0 && c - b.epochSecond >= w then Filter(before, Not(InSlot(w, i))) else before
  {
    hide Filter, BucketOf, SlotOf;
    var before := Filter(es, Kept(w, c, i));
    FilterPositive(es, Kept(w, c, i));
    forall e ensures e in before <==> e in es && Kept(w, c, i)(e) { FilterMembers(es, Kept(w, c, i), e); }
    var b := BucketOf(SlotOf(w, before, i));
    EmptySlot(w, before, i);
    forall e | e in es && e.sec % w == i ensures e in before && b.epochSecond == e.sec {
      SlotSecond(w, before, i, e);
    }
    FilterTwice(es, Kept(w, c, i), Not(InSlot(w, i)));
    if b.epochSecond != 0 && c - b.epochSecond >= w {
      FilterAgree(es, Kept(w, c, i + 1), Both(Kept(w, c, i), Not(InSlot(w, i))));
    } else {
      FilterAgree(es, Kept(w, c, i + 1), Kept(w, c, i));
    }
  }

  /** Eviction, then emptying the new second's slot if it holds another second, leaves what is spared. */
  lemma {:induction false} EvictThenClear(w: int, es: seq<Event>, c: int)
    requires w > 0 && Positive(es) && Uniform(w, es)
    ensures var aged := Filter(es, Kept(w, c, w));
      var b := BucketOf(SlotOf(w, aged, c % w));
      && Positive(aged) && Uniform(w, aged)
      && Filter(es, Spared(w, c)) == if b.epochSecond != c then Filter(aged, Not(InSlot(w, c % w))) else aged
  {
    hide Filter, BucketOf, SlotOf;
    var aged := Filter(es, Kept(w, c, w));
    FilterPositive(es, Kept(w, c, w));
    forall e ensures e in aged <==> e in es && (e.sec == 0 || c - e.sec < w) { FilterMembers(es, Kept(w, c, w), e); }
    var b := BucketOf(SlotOf(w, aged, c % w));
    EmptySlot(w, aged, c % w);
    forall e | e in aged && e.sec % w == c % w ensures b.epochSecond == e.sec { SlotSecond(w, aged, c % w, e); }
    FilterTwice(es, Kept(w, c, w), Not(InSlot(w, c % w)));
    if b.epochSecond != c {
      FilterAgree(es, Spared(w, c), Both(Kept(w, c, w), Not(InSlot(w, c % w))));
    } else {
      FilterAgree(es, Spared(w, c), Kept(w, c, w));
    }
  }

  lemma {:induction false} ScoresEmpty(es: seq<Event>)
    ensures ScoreMap(es) == map[] <==> es == []
  {
    if es != [] { assert es[0].query in ScoreMap(es); }
  }

  lemma {:induction false} JoinsUniformly(w: int, es: seq<Event>, e: Event)
    requires w > 0 && Positive(es) && Uniform(w, es) && e.query != "" && e.score > 0
    requires forall x :: x in es && x.sec % w == e.sec % w ==> x.sec == e.sec
    ensures Positive(es + [e]) && Uniform(w, es + [e])
  {
  }

  /** Counting the new addition in its bucket and in the totals. */
  lemma {:induction false} AppendStores(w: int, es: seq<Event>, e: Event)
    requires w > 0 && Positive(es)
    requires forall x :: x in es && x.sec % w == e.sec % w ==> x.sec == e.sec
    ensures var i := e.sec % w;
      var counts := ScoreMap(SlotOf(w, es, i));
      && BucketOf(SlotOf(w, es, i)) == (if counts == map[] then Bucket(0, map[]) else Bucket(e.sec, counts))
      && BucketOf(SlotOf(w, es + [e], i)) == Bucket(e.sec, counts[e.query := Get(counts, e.query) + e.score])
      && (forall j :: j != i ==> SlotOf(w, es + [e], j) == SlotOf(w, es, j))
      && ScoreMap(es + [e]) == ScoreMap(es)[e.query := Get(ScoreMap(es), e.query) + e.score]
  {
    hide Filter, ScoreMap;
    var i := e.sec % w;
    var slot := SlotOf(w, es, i);
    FilterAppend(es, e, InSlot(w, i));
    ScoreMapAppend(slot, e);
    ScoreMapAppend(es, e);
    ScoresEmpty(slot);
    if slot != [] {
      assert slot[0] in slot;
      FilterMembers(es, InSlot(w, i), slot[0]);
    }
    forall j | j != i ensures SlotOf(w, es + [e], j) == SlotOf(w, es, j) {
      FilterAppend(es, e, InSlot(w, j));
    }
  }

  /** The scores of a bucket add up to the mass of its additions, in any order of summing. */
  lemma {:induction false} SumScores(es: seq<Event>)
    ensures SumMap(ScoreMap(es)) == Mass(es)
  {
    hide SumMap;
    if es == [] {
      assert ScoreMap(es) == map[];
      EmptySum();
    } else {
      var n := |es| - 1;
      SumScores(es[..n]);
      assert es == es[..n] + [es[n]];
      ScoreMapAppend(es[..n], es[n]);
      SumMapSet(ScoreMap(es[..n]), es[n].query, Get(ScoreMap(es[..n]), es[n].query) + es[n].score);
      MassAppend(es[..n], es[n]);
    }
  }

  lemma {:induction false} EmptySum()
    ensures SumMap(map[]) == 0
  {
  }
}
