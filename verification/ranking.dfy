/** The order of the top list: score descending, then query ascending. */
module Ranking {

  datatype TopItem = TopItem(rank: int, query: string, score: int, count: int)

  /** Go compares strings bytewise; on valid UTF-8 that is the order of code points. */
  predicate StringLess(a: string, b: string) {
    if b == "" then false
    else if a == "" then true
    else a[0] < b[0] || (a[0] == b[0] && StringLess(a[1..], b[1..]))
  }

  /** The one of two strings with the smaller character where they first differ, or the one that ends there, is less. */
  lemma {:induction false} LessExact(a: string, b: string)
    ensures StringLess(a, b)
            <==> exists k :: 0 <= k <= |a| && k < |b| && a[..k] == b[..k] && (k == |a| || a[k] < b[k])
  {
    if StringLess(a, b) {
      var k := FirstDifference(a, b);
    }
    if k :| 0 <= k <= |a| && k < |b| && a[..k] == b[..k] && (k == |a| || a[k] < b[k]) {
      DifferenceDecides(a, b, k);
    }
  }

  lemma {:induction false} FirstDifference(a: string, b: string) returns (k: nat)
    requires StringLess(a, b)
    ensures k <= |a| && k < |b| && a[..k] == b[..k] && (k == |a| || a[k] < b[k])
  {
    k := 0;
    if a != "" && a[0] == b[0] {
      var m := FirstDifference(a[1..], b[1..]);
      k := m + 1;
      assert a[..k] == [a[0]] + a[1..][..m] && b[..k] == [b[0]] + b[1..][..m];
    }
  }

  lemma {:induction false} DifferenceDecides(a: string, b: string, k: nat)
    requires k <= |a| && k < |b| && a[..k] == b[..k] && (k == |a| || a[k] < b[k])
    ensures StringLess(a, b)
  {
    if k > 0 {
      assert a[0] == a[..k][0] == b[..k][0] == b[0];
      assert a[1..][..k - 1] == a[..k][1..] == b[..k][1..] == b[1..][..k - 1];
      DifferenceDecides(a[1..], b[1..], k - 1);
    }
  }

  predicate Before(a: TopItem, b: TopItem) {
    if a.score == b.score then StringLess(a.query, b.query) else a.score > b.score
  }

  lemma {:induction false} LessIrreflexive(a: string)
    ensures !StringLess(a, a)
  {
    if a != "" { LessIrreflexive(a[1..]); }
  }

  lemma {:induction false} LessTotal(a: string, b: string)
    ensures StringLess(a, b) || StringLess(b, a) || a == b
  {
    if a != "" && b != "" {
      LessTotal(a[1..], b[1..]);
      if a[0] == b[0] && a[1..] == b[1..] {
        assert a == [a[0]] + a[1..] == [b[0]] + b[1..] == b;
      }
    }
  }

  lemma {:induction false} LessTransitive(a: string, b: string, c: string)
    requires StringLess(a, b) && StringLess(b, c)
    ensures StringLess(a, c)
  {
    if a != "" && b != "" && c != "" && a[0] == b[0] == c[0] {
      LessTransitive(a[1..], b[1..], c[1..]);
    }
  }

  lemma {:induction false} BeforeTransitive(a: TopItem, b: TopItem, c: TopItem)
    requires Before(a, b) && Before(b, c)
    ensures Before(a, c)
  {
    if a.score == b.score == c.score { LessTransitive(a.query, b.query, c.query); }
  }

  lemma {:induction false} BeforeTotal(a: TopItem, b: TopItem)
    requires a.query != b.query
    ensures Before(a, b) || Before(b, a)
  {
    LessTotal(a.query, b.query);
  }

  lemma {:induction false} BeforeAsymmetric(a: TopItem, b: TopItem)
    requires Before(a, b)
    ensures !Before(b, a) && (a.score == b.score ==> a.query != b.query)
  {
    hide StringLess;
    LessIrreflexive(a.query);
    if a.score == b.score && StringLess(b.query, a.query) {
      LessTransitive(a.query, b.query, a.query);
    }
  }

  ghost predicate Ordered(items: seq<TopItem>) {
    forall i, j :: 0 <= i < j < |items| ==> Before(items[i], items[j])
  }

  /** The item carries the query's current total. */
  predicate Reports(totals: map<string, int>, item: TopItem) {
    item.query in totals && item.score == totals[item.query] && item.count == item.score
  }

  /** The complete ranking of `totals`: every query once, in order, ranked from 1. */
  ghost predicate IsRanking(totals: map<string, int>, items: seq<TopItem>) {
    && Ordered(items)
    && (forall i :: 0 <= i < |items| ==> Reports(totals, items[i]) && items[i].rank == i + 1)
    && (forall query :: query in totals ==> exists i :: 0 <= i < |items| && items[i].query == query)
  }

  lemma {:induction false} QueriesDistinct(totals: map<string, int>, items: seq<TopItem>)
    requires IsRanking(totals, items)
    ensures forall i, j :: 0 <= i < j < |items| ==> items[i].query != items[j].query
  {
    hide Before;
    forall i, j | 0 <= i < j < |items| ensures items[i].query != items[j].query {
      BeforeAsymmetric(items[i], items[j]);
    }
  }

  lemma {:induction false} NotBothWays(x: TopItem, y: TopItem, y': TopItem, x': TopItem)
    requires x.query == x'.query && x.score == x'.score && y.query == y'.query && y.score == y'.score
    ensures !(Before(x, y) && Before(y', x'))
  {
    hide StringLess;
    if Before(x, y) { BeforeAsymmetric(x, y); }
  }

  lemma {:induction false} Find(totals: map<string, int>, items: seq<TopItem>, query: string) returns (m: nat)
    requires IsRanking(totals, items) && query in totals
    ensures m < |items| && items[m].query == query && items[m].score == totals[query] == items[m].count
    ensures items[m].rank == m + 1
  {
    hide Before;
    m :| 0 <= m < |items| && items[m].query == query;
  }

  /** Two rankings of the same totals that agree up to a place agree at it. */
  lemma {:induction false} AgreeAt(totals: map<string, int>, a: seq<TopItem>, b: seq<TopItem>, n: nat)
    requires IsRanking(totals, a) && IsRanking(totals, b) && n < |a|
    requires n <= |b| && (forall i :: 0 <= i < n ==> a[i] == b[i])
    ensures n < |b| && a[n] == b[n]
  {
    hide Before;
    QueriesDistinct(totals, a);
    QueriesDistinct(totals, b);
    var m := Find(totals, b, a[n].query);
    assert n <= m;
    var k := Find(totals, a, b[n].query);
    assert n <= k;
    NotBothWays(a[n], a[k], b[n], b[m]);
    assert forall i :: n < i < |a| ==> Before(a[n], a[i]);
    assert forall i :: n < i < |b| ==> Before(b[n], b[i]);
    assert m == n;
  }

  /** The ranking of given totals is unique. */
  lemma {:induction false} RankingUnique(totals: map<string, int>, a: seq<TopItem>, b: seq<TopItem>)
    requires IsRanking(totals, a) && IsRanking(totals, b)
    ensures a == b
  {
    hide IsRanking;
    var n := 0;
    while n < |a|
      invariant n <= |a| && n <= |b|
      invariant forall i :: 0 <= i < n ==> a[i] == b[i]
    {
      AgreeAt(totals, a, b, n);
      n := n + 1;
    }
    if n < |b| { AgreeAt(totals, b, a, n); }
  }

  predicate Outranks(totals: map<string, int>, item: TopItem, query: string)
    requires query in totals
  {
    item.score > totals[query] || (item.score == totals[query] && StringLess(item.query, query))
  }

  /** A prefix of the ranking is the top list: nothing left out outranks anything in it. */
  lemma {:induction false} TopOfRanking(totals: map<string, int>, items: seq<TopItem>, k: nat, query: string)
    requires IsRanking(totals, items) && k <= |items|
    requires query in totals && forall i :: 0 <= i < k ==> items[i].query != query
    ensures forall i :: 0 <= i < k ==> Outranks(totals, items[i], query)
  {
    hide StringLess;
    var m := Find(totals, items, query);
    forall i | 0 <= i < k
      ensures Outranks(totals, items[i], query)
    {
      assert Before(items[i], items[m]);
    }
  }

  /**
   What a ranking, or any prefix of one, shows: ranks from 1, every score the query's total, scores going
   down, and among equal scores the query that ends first or has the smaller character where they differ.
   */
  lemma {:induction false} RankingShows(totals: map<string, int>, items: seq<TopItem>, n: nat)
    requires IsRanking(totals, items) && n <= |items|
    ensures var shown := items[..n];
      && (forall i :: 0 <= i < n ==>
            && shown[i].rank == i + 1 && shown[i].query in totals
            && shown[i].score == shown[i].count == totals[shown[i].query])
      && (forall i, j :: 0 <= i < j < n ==>
            || shown[i].score > shown[j].score
            || (shown[i].score == shown[j].score
                && exists k :: 0 <= k <= |shown[i].query| && k < |shown[j].query|
                               && shown[i].query[..k] == shown[j].query[..k]
                               && (k == |shown[i].query| || shown[i].query[k] < shown[j].query[k])))
  {
    hide StringLess;
    forall i, j | 0 <= i < j < n
      ensures items[i].score >= items[j].score
      ensures items[i].score == items[j].score ==> StringLess(items[i].query, items[j].query)
    {
      assert Before(items[i], items[j]);
    }
    forall i, j | 0 <= i < j < n && items[i].score == items[j].score
      ensures exists k :: 0 <= k <= |items[i].query| && k < |items[j].query|
                          && items[i].query[..k] == items[j].query[..k]
                          && (k == |items[i].query| || items[i].query[k] < items[j].query[k])
    {
      LessExact(items[i].query, items[j].query);
    }
  }

  lemma {:induction false} RankingLength(totals: map<string, int>, items: seq<TopItem>)
    requires IsRanking(totals, items)
    ensures |items| == |totals|
  {
    hide Before;
    QueriesDistinct(totals, items);
    var seen := set i | 0 <= i < |items| :: items[i].query;
    assert seen == totals.Keys;
    DistinctCard(items, |items|);
    assert seen == FirstQueries(items, |items|);
  }

  function FirstQueries(items: seq<TopItem>, n: nat): set<string>
    requires n <= |items|
  {
    set i | 0 <= i < n :: items[i].query
  }

  lemma {:induction false} DistinctCard(items: seq<TopItem>, n: nat)
    requires n <= |items|
    requires forall i, j :: 0 <= i < j < |items| ==> items[i].query != items[j].query
    ensures |FirstQueries(items, n)| == n
  {
    if n > 0 {
      DistinctCard(items, n - 1);
      assert FirstQueries(items, n) == FirstQueries(items, n - 1) + {items[n - 1].query};
      assert items[n - 1].query !in FirstQueries(items, n - 1);
    } else {
      assert FirstQueries(items, 0) == {};
    }
  }
}
