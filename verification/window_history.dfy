/**
 The meaning of the sliding-window engine, as a function of the plain list of everything ever
 added: which additions are still alive, and what they amount to per query.
 */
module WindowHistory {
  import opened Prelude

  datatype Event = Event(query: string, score: int, sec: int)

  function UnixSecond(now: int): int { now / 1_000_000_000 }

  /** The second an addition is filed under: its ingest time, or the clock's if that has none. */
  function FiledSecond(ingestedAtMS: int, now: int): int {
    if ingestedAtMS / 1000 <= 0 then UnixSecond(now) else ingestedAtMS / 1000
  }

  /** What a call of `Add` contributes to the history; invalid calls contribute nothing. */
  function AddedBy(query: string, score: int, ingestedAtMS: int, now: int): seq<Event> {
    if query == "" || score <= 0 then [] else [Event(query, score, FiledSecond(ingestedAtMS, now))]
  }

  /** The index of a second's bucket is in range: Go's remainder takes the sign of the second. */
  predicate Indexable(w: int, sec: int)
    requires w > 0
  {
    sec >= 0 || sec % w == 0
  }

  /**
   An addition at second `c` ends second `s`: by age, or by taking over its slot in the ring. Second zero
   also marks an empty bucket, so eviction passes it over.
   */
  predicate Kills(w: int, c: int, s: int)
    requires w > 0
  {
    (s != 0 && c - s >= w) || (c % w == s % w && c != s)
  }

  function Spared(w: int, c: int): Event -> bool
    requires w > 0
  {
    (e: Event) => !Kills(w, c, e.sec)
  }

  ghost predicate Live(w: int, evs: seq<Event>, k: int)
    requires w > 0 && 0 <= k < |evs|
  {
    forall j :: k < j < |evs| ==> !Kills(w, evs[j].sec, evs[k].sec)
  }

  ghost function LiveTo(w: int, evs: seq<Event>, n: nat): seq<Event>
    requires w > 0 && n <= |evs|
  {
    if n == 0 then [] else LiveTo(w, evs, n - 1) + if Live(w, evs, n - 1) then [evs[n - 1]] else []
  }

  /** The additions no later one has ended, in arrival order. */
  ghost function Survivors(w: int, evs: seq<Event>): seq<Event>
    requires w > 0
  {
    LiveTo(w, evs, |evs|)
  }

  // ----- scores

  function Total(es: seq<Event>, query: string): int {
    if es == [] then 0
    else
      var n := |es| - 1;
      Total(es[..n], query) + if es[n].query == query then es[n].score else 0
  }

  function Mass(es: seq<Event>): int {
    if es == [] then 0 else Mass(es[..|es| - 1]) + es[|es| - 1].score
  }

  function QueriesOf(es: seq<Event>): set<string> { set e | e in es :: e.query }

  function ScoreMap(es: seq<Event>): map<string, int> {
    map query | query in QueriesOf(es) :: Total(es, query)
  }

  ghost predicate Positive(es: seq<Event>) {
    forall e :: e in es ==> e.score > 0 && e.query != ""
  }

  lemma {:induction false} TotalAppend(es: seq<Event>, e: Event, query: string)
    ensures Total(es + [e], query) == Total(es, query) + if e.query == query then e.score else 0
  {
    assert (es + [e])[..|es|] == es;
  }

  lemma {:induction false} TotalPositive(es: seq<Event>, query: string)
    requires Positive(es)
    ensures Total(es, query) >= 0
    ensures Total(es, query) > 0 <==> query in QueriesOf(es)
  {
    if es != [] {
      var n := |es| - 1;
      TotalPositive(es[..n], query);
      assert es == es[..n] + [es[n]];
    }
  }

  lemma {:induction false} ScoreMapAppend(es: seq<Event>, e: Event)
    ensures ScoreMap(es + [e]) == ScoreMap(es)[e.query := Get(ScoreMap(es), e.query) + e.score]
  {
    hide Total;
    assert QueriesOf(es + [e]) == QueriesOf(es) + {e.query};
    forall query ensures Total(es + [e], query) == Total(es, query) + if e.query == query then e.score else 0 {
      TotalAppend(es, e, query);
    }
    AbsentIsZero(es, e.query);
  }

  lemma {:induction false} AbsentIsZero(es: seq<Event>, query: string)
    ensures query !in QueriesOf(es) ==> Total(es, query) == 0
  {
    if es != [] {
      var n := |es| - 1;
      AbsentIsZero(es[..n], query);
      assert es == es[..n] + [es[n]];
    }
  }

  // ----- filtering

  function Filter(es: seq<Event>, keep: Event -> bool): seq<Event> {
    if es == [] then []
    else
      var n := |es| - 1;
      Filter(es[..n], keep) + if keep(es[n]) then [es[n]] else []
  }

  function Not(p: Event -> bool): Event -> bool { e => !p(e) }

  function Both(p: Event -> bool, q: Event -> bool): Event -> bool { e => p(e) && q(e) }

  lemma {:induction false} FilterAppend(es: seq<Event>, e: Event, keep: Event -> bool)
    ensures Filter(es + [e], keep) == Filter(es, keep) + if keep(e) then [e] else []
  {
    assert (es + [e])[..|es|] == es;
  }

  lemma {:induction false} FilterLast(es: seq<Event>, keep: Event -> bool)
    requires es != []
    ensures var n := |es| - 1;
      Filter(es, keep) == if keep(es[n]) then Filter(es[..n], keep) + [es[n]] else Filter(es[..n], keep)
  {
  }

  lemma {:induction false} FilterMembers(es: seq<Event>, keep: Event -> bool, e: Event)
    ensures e in Filter(es, keep) <==> e in es && keep(e)
  {
    if es != [] {
      var n := |es| - 1;
      FilterMembers(es[..n], keep, e);
      assert es == es[..n] + [es[n]];
    }
  }

  lemma {:induction false} FilterPositive(es: seq<Event>, keep: Event -> bool)
    requires Positive(es)
    ensures Positive(Filter(es, keep))
  {
    forall e | e in Filter(es, keep) ensures e in es { FilterMembers(es, keep, e); }
  }

  lemma {:induction false} FilterAgree(es: seq<Event>, p: Event -> bool, q: Event -> bool)
    requires forall e :: e in es ==> p(e) == q(e)
    ensures Filter(es, p) == Filter(es, q)
  {
    if es != [] {
      var n := |es| - 1;
      assert es == es[..n] + [es[n]];
      FilterAgree(es[..n], p, q);
      assert es[n] in es;
    }
  }

  lemma {:induction false} FilterAll(es: seq<Event>, keep: Event -> bool)
    requires forall e :: e in es ==> keep(e)
    ensures Filter(es, keep) == es
  {
    if es != [] {
      var n := |es| - 1;
      assert es == es[..n] + [es[n]];
      FilterAll(es[..n], keep);
      assert es[n] in es;
    }
  }

  lemma {:induction false} FilterNone(es: seq<Event>, keep: Event -> bool)
    requires forall e :: e in es ==> !keep(e)
    ensures Filter(es, keep) == []
  {
    if es != [] {
      var n := |es| - 1;
      assert es == es[..n] + [es[n]];
      FilterNone(es[..n], keep);
      assert es[n] in es;
    }
  }

  lemma {:induction false} FilterTwice(es: seq<Event>, p: Event -> bool, q: Event -> bool)
    ensures Filter(Filter(es, p), q) == Filter(es, Both(p, q))
  {
    var both := Both(p, q);
    if es != [] {
      var n := |es| - 1;
      FilterTwice(es[..n], p, q);
      FilterLast(es, p);
      FilterLast(es, both);
      if p(es[n]) {
        FilterAppend(Filter(es[..n], p), es[n], q);
      }
    }
  }

  lemma {:induction false} TotalSplit(es: seq<Event>, keep: Event -> bool, query: string)
    ensures Total(es, query) == Total(Filter(es, keep), query) + Total(Filter(es, Not(keep)), query)
  {
    var drop := Not(keep);
    if es != [] {
      var n := |es| - 1;
      TotalSplit(es[..n], keep, query);
      FilterLast(es, keep);
      FilterLast(es, drop);
      if keep(es[n]) {
        TotalAppend(Filter(es[..n], keep), es[n], query);
      } else {
        TotalAppend(Filter(es[..n], drop), es[n], query);
      }
    }
  }

  lemma {:induction false} MassSplit(es: seq<Event>, keep: Event -> bool)
    ensures Mass(es) == Mass(Filter(es, keep)) + Mass(Filter(es, Not(keep)))
  {
    var drop := Not(keep);
    if es != [] {
      var n := |es| - 1;
      MassSplit(es[..n], keep);
      FilterLast(es, keep);
      FilterLast(es, drop);
      if keep(es[n]) {
        MassAppend(Filter(es[..n], keep), es[n]);
      } else {
        MassAppend(Filter(es[..n], drop), es[n]);
      }
    }
  }

  lemma {:induction false} MassAppend(es: seq<Event>, e: Event)
    ensures Mass(es + [e]) == Mass(es) + e.score
  {
    assert (es + [e])[..|es|] == es;
  }

  /** Takes the counts of `done` off the totals; a total that reaches zero loses its key. */
  function SubtractKeys(totals: map<string, int>, counts: map<string, int>, done: set<string>): map<string, int>
    requires done <= counts.Keys
  {
    map query | query in totals.Keys + done && (query in done ==> Get(totals, query) - counts[query] > 0)
      :: if query in done then Get(totals, query) - counts[query] else totals[query]
  }

  function Subtract(totals: map<string, int>, counts: map<string, int>): map<string, int> {
    SubtractKeys(totals, counts, counts.Keys)
  }

  lemma {:induction false} SubtractNone(totals: map<string, int>, counts: map<string, int>)
    ensures SubtractKeys(totals, counts, {}) == totals
  {
  }

  lemma {:induction false} SubtractOneMore(totals: map<string, int>, counts: map<string, int>, done: set<string>,
                                                 query: string)
    requires done <= counts.Keys && query in counts && query !in done
    ensures var part := SubtractKeys(totals, counts, done);
      var total := Get(part, query) - counts[query];
      SubtractKeys(totals, counts, done + {query}) == if total <= 0 then part - {query} else part[query := total]
  {
  }

  /** Subtracting one part's scores from the whole leaves the other part's, key for key. */
  lemma {:induction false} SubtractPart(es: seq<Event>, part: Event -> bool)
    requires Positive(es)
    ensures Subtract(ScoreMap(es), ScoreMap(Filter(es, part))) == ScoreMap(Filter(es, Not(part)))
  {
    hide Total, Filter;
    var inside, outside := Filter(es, part), Filter(es, Not(part));
    FilterPositive(es, part);
    FilterPositive(es, Not(part));
    forall query
      ensures Total(es, query) == Total(inside, query) + Total(outside, query)
      ensures query in QueriesOf(inside) <==> Total(inside, query) > 0
      ensures query in QueriesOf(outside) <==> Total(outside, query) > 0
      ensures query in QueriesOf(es) <==> Total(es, query) > 0
      ensures Total(inside, query) >= 0 && Total(outside, query) >= 0
    {
      TotalSplit(es, part, query);
      TotalPositive(es, query);
      TotalPositive(inside, query);
      TotalPositive(outside, query);
    }
  }

  // ----- one more addition

  lemma {:induction false} LiveAppend(w: int, evs: seq<Event>, e: Event, k: int)
    requires w > 0 && 0 <= k < |evs|
    ensures Live(w, evs + [e], k) <==> Live(w, evs, k) && !Kills(w, e.sec, evs[k].sec)
  {
    var all := evs + [e];
    if Live(w, all, k) {
      assert all[|evs|] == e;
      forall j | k < j < |evs| ensures !Kills(w, evs[j].sec, evs[k].sec) { assert all[j] == evs[j]; }
    }
  }

  lemma {:induction false} LiveToLast(w: int, evs: seq<Event>, n: nat)
    requires w > 0 && 0 < n <= |evs|
    ensures LiveTo(w, evs, n)
         == if Live(w, evs, n - 1) then LiveTo(w, evs, n - 1) + [evs[n - 1]] else LiveTo(w, evs, n - 1)
  {
  }

  lemma {:induction false} LiveToAppend(w: int, evs: seq<Event>, e: Event, n: nat)
    requires w > 0 && n <= |evs|
    ensures LiveTo(w, evs + [e], n) == Filter(LiveTo(w, evs, n), Spared(w, e.sec))
  {
    hide Live, Kills;
    if n > 0 {
      LiveToAppend(w, evs, e, n - 1);
      LiveAppend(w, evs, e, n - 1);
      LiveToLast(w, evs + [e], n);
      LiveToLast(w, evs, n);
      if Live(w, evs, n - 1) {
        FilterAppend(LiveTo(w, evs, n - 1), evs[n - 1], Spared(w, e.sec));
      }
    }
  }

  /** An addition ends what it kills and joins the survivors. */
  lemma {:induction false} SurvivorsAppend(w: int, evs: seq<Event>, e: Event)
    requires w > 0
    ensures Survivors(w, evs + [e]) == Filter(Survivors(w, evs), Spared(w, e.sec)) + [e]
  {
    hide Kills;
    LiveToAppend(w, evs, e, |evs|);
    assert Live(w, evs + [e], |evs|);
  }

  /** Two survivors in one slot of the ring are of the same second. */
  ghost predicate Uniform(w: int, es: seq<Event>)
    requires w > 0
  {
    forall a, b :: a in es && b in es && a.sec % w == b.sec % w ==> a.sec == b.sec
  }

  lemma {:induction false} SurvivorsUniform(w: int, evs: seq<Event>)
    requires w > 0
    ensures Uniform(w, Survivors(w, evs))
  {
    hide Live;
    if evs != [] {
      var n := |evs| - 1;
      var e := evs[n];
      assert evs == evs[..n] + [e];
      SurvivorsUniform(w, evs[..n]);
      SurvivorsAppend(w, evs[..n], e);
      var kept := Filter(Survivors(w, evs[..n]), Spared(w, e.sec));
      forall a | a in kept ensures a in Survivors(w, evs[..n]) && !Kills(w, e.sec, a.sec) {
        FilterMembers(Survivors(w, evs[..n]), Spared(w, e.sec), a);
      }
    }
  }

  lemma {:induction false} SurvivorsPositive(w: int, evs: seq<Event>)
    requires w > 0 && Positive(evs)
    ensures Positive(Survivors(w, evs))
  {
    hide Live;
    if evs != [] {
      var n := |evs| - 1;
      assert evs == evs[..n] + [evs[n]];
      assert Positive(evs[..n]);
      SurvivorsPositive(w, evs[..n]);
      SurvivorsAppend(w, evs[..n], evs[n]);
      FilterPositive(Survivors(w, evs[..n]), Spared(w, evs[n].sec));
      assert evs[n] in evs;
    }
  }
}
