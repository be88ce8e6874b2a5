/** When what a read sees is right: nothing is evicted at a read, so the totals can be out of date. */
module WindowReading {
  import opened Prelude
  import opened WindowHistory
  import opened WindowRing
  import opened WindowEngine
  import opened WindowTheorems

  /** What a read at second `r` ought to count: everything of the last `w` seconds up to `r`. */
  function WindowAt(w: int, evs: seq<Event>, r: int): seq<Event> { Filter(evs, After(r - w)) }

  /** Something the engine still holds has left the window by second `r`. */
  ghost predicate Outdated(w: int, evs: seq<Event>, r: int)
    requires evs != []
  {
    exists e :: e in evs && MaxSec(evs) - w < e.sec <= r - w
  }

  lemma {:induction false} ReadNarrows(w: int, evs: seq<Event>, r: int)
    requires w > 0 && Steady(w, evs) && evs != [] && MaxSec(evs) <= r
    ensures WindowAt(w, evs, r) == Filter(Survivors(w, evs), After(r - w))
  {
    hide Filter, MaxSec, Steady, Survivors;
    SlidingWindow(w, evs);
    FilterTwice(evs, After(MaxSec(evs) - w), After(r - w));
    FilterAgree(evs, Both(After(MaxSec(evs) - w), After(r - w)), After(r - w));
  }

  lemma {:induction false} DroppingShows(es: seq<Event>, keep: Event -> bool, e: Event)
    requires Positive(es) && e in es && !keep(e)
    ensures ScoreMap(es) != ScoreMap(Filter(es, keep))
  {
    hide Filter, Total;
    var kept, dropped := Filter(es, keep), Filter(es, Not(keep));
    FilterMembers(es, Not(keep), e);
    FilterPositive(es, Not(keep));
    TotalSplit(es, keep, e.query);
    TotalPositive(dropped, e.query);
    assert e.query in QueriesOf(dropped);
    assert ScoreMap(es)[e.query] == Total(es, e.query) > Total(kept, e.query);
    assert e.query in ScoreMap(kept) ==> ScoreMap(kept)[e.query] == Total(kept, e.query);
  }

  /**
   In a steady history, at a read at or after the newest second, the totals held are those of the last `w` seconds up to
   the read if and only if nothing held has left that window since the last addition.
   */
  lemma {:induction false} ReadExact(w: int, evs: seq<Event>, r: int)
    requires w > 0 && Positive(evs) && Steady(w, evs) && evs != [] && MaxSec(evs) <= r
    ensures ScoreMap(Survivors(w, evs)) == ScoreMap(WindowAt(w, evs, r)) <==> !Outdated(w, evs, r)
  {
    hide Filter, MaxSec, Steady, Survivors, ScoreMap, WindowAt;
    var held := Survivors(w, evs);
    ReadNarrows(w, evs, r);
    SlidingWindow(w, evs);
    SurvivorsPositive(w, evs);
    forall e ensures e in held <==> e in evs && e.sec > MaxSec(evs) - w {
      FilterMembers(evs, After(MaxSec(evs) - w), e);
    }
    if Outdated(w, evs, r) {
      var e :| e in evs && MaxSec(evs) - w < e.sec <= r - w;
      DroppingShows(held, After(r - w), e);
    } else {
      FilterAll(held, After(r - w));
    }
  }

  /** The same of an engine with a steady history: when `totals` is what a read at second `r` ought to see. */
  lemma {:induction false} TotalsCurrentExact(e: Engine, r: int)
    requires e.Valid() && Steady(e.windowSeconds, e.events) && e.events != [] && MaxSec(e.events) <= r
    ensures e.totals == ScoreMap(WindowAt(e.windowSeconds, e.events, r)) <==> !Outdated(e.windowSeconds, e.events, r)
  {
    ReadExact(e.windowSeconds, e.events, r);
  }

  /** One addition, then silence: a full window later the query is still counted although nothing is due. */
  lemma {:induction false} SilenceKeepsScores(w: int, query: string, score: int, s: int)
    requires w > 0 && query != "" && score > 0 && s > 0
    ensures var evs := [Event(query, score, s)];
      && Steady(w, evs) && MaxSec(evs) <= s + w
      && ScoreMap(Survivors(w, evs)) == map[query := score]
      && ScoreMap(WindowAt(w, evs, s + w)) == map[]
  {
    hide MaxSec, ScoreMap;
    var e := Event(query, score, s);
    assert [e] == [] + [e];
    SurvivorsAppend(w, [], e);
    ScoreMapAppend([], e);
    ScoresEmpty([]);
    var k := MaxSecBounds([e]);
    FilterNone([e], After(s));
  }

  // ----- reading a history in any arrival order

  /** Nothing recent has lost its slot, and everything else has been ended. */
  ghost predicate Current(w: int, evs: seq<Event>, r: int)
    requires w > 0
  {
    && (forall k :: 0 <= k < |evs| && evs[k].sec > r - w ==> !Displaced(w, evs, k))
    && (forall k :: 0 <= k < |evs| && evs[k].sec <= r - w ==> !Live(w, evs, k))
  }

  ghost predicate UpTo(evs: seq<Event>, r: int) { forall e :: e in evs ==> e.sec <= r }

  lemma {:induction false} RecentIsLive(w: int, evs: seq<Event>, r: int, k: nat)
    requires w > 0 && UpTo(evs, r) && k < |evs| && evs[k].sec > r - w
    ensures Live(w, evs, k) <==> !Displaced(w, evs, k)
  {
    forall j | k < j < |evs|
      ensures Kills(w, evs[j].sec, evs[k].sec) <==> evs[j].sec % w == evs[k].sec % w && evs[j].sec != evs[k].sec
    {
      assert evs[j] in evs;
    }
  }

  lemma {:induction false} CurrentTo(w: int, evs: seq<Event>, r: int, n: nat)
    requires w > 0 && n <= |evs|
    requires forall k :: 0 <= k < |evs| ==> (Live(w, evs, k) <==> evs[k].sec > r - w)
    ensures LiveTo(w, evs, n) == Filter(evs[..n], After(r - w))
  {
    hide Live;
    if n > 0 {
      CurrentTo(w, evs, r, n - 1);
      LiveToLast(w, evs, n);
      assert evs[..n][..n - 1] == evs[..n - 1];
      FilterLast(evs[..n], After(r - w));
    }
  }

  /** Of each addition the ring holds at most as many copies as were made. */
  lemma {:induction false} LiveCopies(w: int, evs: seq<Event>, n: nat, x: Event)
    requires w > 0 && n <= |evs|
    ensures multiset(LiveTo(w, evs, n))[x] <= multiset(evs[..n])[x]
  {
    hide Live, LiveTo;
    if n == 0 {
      NothingHeld(w, evs, 0);
    } else {
      LiveCopies(w, evs, n - 1, x);
      LiveToLast(w, evs, n);
      OneCopyMore(evs, n, x);
    }
  }

  lemma {:induction false} OneCopyMore(evs: seq<Event>, n: nat, x: Event)
    requires 0 < n <= |evs|
    ensures multiset(evs[..n])[x] == multiset(evs[..n - 1])[x] + if evs[n - 1] == x then 1 else 0
  {
    assert evs[..n] == evs[..n - 1] + [evs[n - 1]];
  }

  /** And fewer once one of them has ended. */
  lemma {:induction false} EndedCopies(w: int, evs: seq<Event>, n: nat, k: nat)
    requires w > 0 && k < n <= |evs| && !Live(w, evs, k)
    ensures multiset(LiveTo(w, evs, n))[evs[k]] < multiset(evs[..n])[evs[k]]
  {
    hide Live, LiveTo;
    LiveToLast(w, evs, n);
    OneCopyMore(evs, n, evs[k]);
    if k < n - 1 {
      EndedCopies(w, evs, n - 1, k);
    } else {
      LiveCopies(w, evs, n - 1, evs[k]);
    }
  }

  lemma {:induction false} FilterCopies(es: seq<Event>, keep: Event -> bool, x: Event)
    ensures multiset(Filter(es, keep))[x] == if keep(x) then multiset(es)[x] else 0
  {
    if es != [] {
      var n := |es| - 1;
      FilterCopies(es[..n], keep, x);
      FilterLast(es, keep);
      assert es == es[..n] + [es[n]];
    }
  }

  /**
   Whatever the arrival order: at a read the additions held are those of the last `w` seconds if and only
   if no recent addition has lost its slot to another second and every older one has been ended.
   */
  lemma {:induction false} HeldExact(w: int, evs: seq<Event>, r: int)
    requires w > 0 && UpTo(evs, r)
    ensures Survivors(w, evs) == WindowAt(w, evs, r) <==> Current(w, evs, r)
  {
    hide Live, LiveTo, Filter, Displaced;
    forall k | 0 <= k < |evs| && evs[k].sec > r - w ensures Live(w, evs, k) <==> !Displaced(w, evs, k) {
      RecentIsLive(w, evs, r, k);
    }
    assert evs[..|evs|] == evs;
    if Current(w, evs, r) {
      CurrentTo(w, evs, r, |evs|);
    }
    if Survivors(w, evs) == WindowAt(w, evs, r) {
      forall k | 0 <= k < |evs| ensures Live(w, evs, k) <==> evs[k].sec > r - w {
        FilterCopies(evs, After(r - w), evs[k]);
        if Live(w, evs, k) {
          LiveIsHeld(w, evs, |evs|, k);
        } else {
          EndedCopies(w, evs, |evs|, k);
        }
      }
    }
  }

  /** Held although out of the window at second `r`, among the first `n`. */
  ghost function StaleTo(w: int, evs: seq<Event>, r: int, n: nat): seq<Event>
    requires w > 0 && n <= |evs|
  {
    if n == 0 then []
    else if Live(w, evs, n - 1) && evs[n - 1].sec <= r - w then StaleTo(w, evs, r, n - 1) + [evs[n - 1]]
    else StaleTo(w, evs, r, n - 1)
  }

  /** In the window at second `r` but no longer held, among the first `n`. */
  ghost function MissedTo(w: int, evs: seq<Event>, r: int, n: nat): seq<Event>
    requires w > 0 && n <= |evs|
  {
    if n == 0 then []
    else if !Live(w, evs, n - 1) && evs[n - 1].sec > r - w then MissedTo(w, evs, r, n - 1) + [evs[n - 1]]
    else MissedTo(w, evs, r, n - 1)
  }

  lemma {:induction false} ReadErrorTo(w: int, evs: seq<Event>, r: int, n: nat, query: string)
    requires w > 0 && n <= |evs|
    ensures Total(LiveTo(w, evs, n), query) + Total(MissedTo(w, evs, r, n), query)
         == Total(Filter(evs[..n], After(r - w)), query) + Total(StaleTo(w, evs, r, n), query)
  {
    hide Live, Total, Filter, LiveTo;
    if n == 0 {
      NothingHeld(w, evs, r);
    } else {
      var e := evs[n - 1];
      ReadErrorTo(w, evs, r, n - 1, query);
      LiveToLast(w, evs, n);
      assert evs[..n][..n - 1] == evs[..n - 1];
      FilterLast(evs[..n], After(r - w));
      assert evs[..n][n - 1] == e;
      TotalAppend(LiveTo(w, evs, n - 1), e, query);
      TotalAppend(MissedTo(w, evs, r, n - 1), e, query);
      TotalAppend(Filter(evs[..n - 1], After(r - w)), e, query);
      TotalAppend(StaleTo(w, evs, r, n - 1), e, query);
    }
  }

  lemma {:induction false} NothingHeld(w: int, evs: seq<Event>, r: int)
    requires w > 0
    ensures LiveTo(w, evs, 0) == [] == Filter(evs[..0], After(r - w))
  {
  }

  ghost predicate SameTotals(a: seq<Event>, b: seq<Event>) {
    forall query :: Total(a, query) == Total(b, query)
  }

  lemma {:induction false} ScoreMapsEqual(a: seq<Event>, b: seq<Event>)
    requires Positive(a) && Positive(b)
    ensures ScoreMap(a) == ScoreMap(b) <==> SameTotals(a, b)
  {
    hide Total;
    forall query
      ensures query in QueriesOf(a) <==> Total(a, query) > 0
      ensures query in QueriesOf(b) <==> Total(b, query) > 0
      ensures Total(a, query) >= 0 && Total(b, query) >= 0
    {
      TotalPositive(a, query);
      TotalPositive(b, query);
    }
    if SameTotals(a, b) {
      assert QueriesOf(a) == QueriesOf(b);
    }
    if ScoreMap(a) == ScoreMap(b) {
      forall query ensures Total(a, query) == Total(b, query) {
        assert query in ScoreMap(a) <==> query in ScoreMap(b);
        if query in ScoreMap(a) { assert ScoreMap(a)[query] == Total(a, query); }
      }
    }
  }

  /**
   Whatever the arrival order, the error of a read is accounted for: what is held but out of the window
   less what is in the window but displaced; the totals are right exactly if the two agree per query.
   */
  lemma {:induction false} ReadErrorExact(w: int, evs: seq<Event>, r: int)
    requires w > 0 && Positive(evs)
    ensures var n := |evs|;
      && (forall query :: Total(Survivors(w, evs), query)
            == Total(WindowAt(w, evs, r), query)
               + Total(StaleTo(w, evs, r, n), query) - Total(MissedTo(w, evs, r, n), query))
      && (ScoreMap(Survivors(w, evs)) == ScoreMap(WindowAt(w, evs, r))
          <==> SameTotals(StaleTo(w, evs, r, n), MissedTo(w, evs, r, n)))
  {
    hide Live, LiveTo, Total, Filter, ScoreMap, Positive, StaleTo, MissedTo;
    var n := |evs|;
    assert evs[..n] == evs;
    SurvivorsPositive(w, evs);
    FilterPositive(evs, After(r - w));
    ScoreMapsEqual(Survivors(w, evs), WindowAt(w, evs, r));
    forall query
      ensures Total(Survivors(w, evs), query)
           == Total(WindowAt(w, evs, r), query)
              + Total(StaleTo(w, evs, r, n), query) - Total(MissedTo(w, evs, r, n), query)
    {
      ReadErrorTo(w, evs, r, n, query);
    }
  }

  /** The same of an engine: what its ring holds, and hence when its totals are right. */
  lemma {:induction false} EngineHoldsExact(e: Engine, r: int)
    requires e.Valid() && UpTo(e.events, r)
    ensures e.alive == WindowAt(e.windowSeconds, e.events, r) <==> Current(e.windowSeconds, e.events, r)
    ensures Current(e.windowSeconds, e.events, r) ==> e.totals == ScoreMap(WindowAt(e.windowSeconds, e.events, r))
  {
    hide Survivors, WindowAt, Current, ScoreMap, UpTo;
    HeldExact(e.windowSeconds, e.events, r);
  }

  /**
   A late addition in between displaces a recent one: nothing held is out of date, yet a query of the
   current second is missing.
   */
  lemma {:induction false} LateDisplaces(w: int, s: int, lost: string, late: string, last: string)
    requires w > 0 && s > 0 && lost != "" && late != "" && last != "" && lost != last
    ensures var evs := [Event(lost, 1, s + w), Event(late, 1, s), Event(last, 1, s + w)];
      && Positive(evs) && MaxSec(evs) == s + w && !Outdated(w, evs, s + w)
      && ScoreMap(Survivors(w, evs)) == map[last := 1]
      && lost in ScoreMap(WindowAt(w, evs, s + w))
  {
    hide MaxSec, ScoreMap, Survivors;
    var a, b, c := Event(lost, 1, s + w), Event(late, 1, s), Event(last, 1, s + w);
    var evs := [a, b, c];
    var k := MaxSecBounds(evs);
    assert evs[0].sec == s + w;
    SlotsAgree(w, s);
    OneSurvivor(w, a, b);
    OneSurvivor(w, b, c);
    assert evs == [a, b] + [c];
    SurvivorsAppend(w, [a, b], c);
    ScoreMapAppend([], c);
    ScoresEmpty([]);
    FilterMembers(evs, After(s), a);
    ScoreKeys(WindowAt(w, evs, s + w), a);
  }

  lemma {:induction false} SlotsAgree(w: int, s: int)
    requires w > 0
    ensures (s + w) % w == s % w
  {
    var d := (s + w) / w - s / w - 1;
    assert (s + w) / w * w + (s + w) % w == s / w * w + s % w + w;
    assert d * w == s % w - (s + w) % w;
    MulBounds(d, w);
  }

  /** Of two additions the second ends the first. */
  lemma {:induction false} OneSurvivor(w: int, a: Event, b: Event)
    requires w > 0 && Kills(w, b.sec, a.sec)
    ensures Survivors(w, [a, b]) == [b]
    ensures Filter([a], Spared(w, b.sec)) == []
  {
    hide Kills, LiveTo, Live;
    FilterNone([a], Spared(w, b.sec));
    assert [a] == [] + [a] && [a, b] == [a] + [b];
    SurvivorsAppend(w, [], a);
    assert Survivors(w, []) == [] by { NothingHeld(w, [], 0); }
    SurvivorsAppend(w, [a], b);
  }

  lemma {:induction false} ScoreKeys(es: seq<Event>, e: Event)
    requires e in es
    ensures e.query in ScoreMap(es)
  {
  }
}
