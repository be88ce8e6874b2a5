/** Building the ranked list from the totals: collect, sort, number. */
module SnapshotBuilder {
  import opened Ranking

  /** The totals that are listed at all. */
  function Listed(totals: map<string, int>): map<string, int> {
    map query | query in totals && totals[query] > 0 :: totals[query]
  }

  ghost predicate Apart(items: seq<TopItem>) {
    forall i, j :: 0 <= i < j < |items| ==> items[i].query != items[j].query
  }

  ghost predicate SameItems(a: seq<TopItem>, b: seq<TopItem>) {
    |a| == |b| && forall item :: item in a <==> item in b
  }

  /** Every query of `keys` that is listed, once, in whatever order the map is ranged over. */
  ghost predicate Collects(totals: map<string, int>, keys: set<string>, items: seq<TopItem>) {
    && Apart(items)
    && (forall i :: 0 <= i < |items| ==> items[i].query in keys && Reports(Listed(totals), items[i]))
    && (forall query :: query in keys && query in Listed(totals)
                        ==> exists i :: 0 <= i < |items| && items[i].query == query)
  }

  method Collect(totals: map<string, int>) returns (items: seq<TopItem>)
    ensures Collects(totals, totals.Keys, items)
  {
    items := [];
    var keys := totals.Keys;
    assert totals.Keys - keys == {};
    while keys != {}
      invariant keys <= totals.Keys
      invariant Collects(totals, totals.Keys - keys, items)
      decreases keys
    {
      var query :| query in keys;
      var score := totals[query];
      CollectOne(totals, totals.Keys - keys, items, query);
      assert totals.Keys - (keys - {query}) == totals.Keys - keys + {query};
      keys := keys - {query};
      if score <= 0 {
        continue;
      }
      items := items + [TopItem(0, query, score, score)];
    }
    assert totals.Keys - {} == totals.Keys;
  }

  lemma {:induction false} CollectOne(totals: map<string, int>, done: set<string>, items: seq<TopItem>, query: string)
    requires Collects(totals, done, items) && query in totals && query !in done
    ensures var score := totals[query];
      Collects(totals, done + {query}, if score <= 0 then items else items + [TopItem(0, query, score, score)])
  {
    var score := totals[query];
    var next := if score <= 0 then items else items + [TopItem(0, query, score, score)];
    forall q | q in done + {query} && q in Listed(totals)
      ensures exists i :: 0 <= i < |next| && next[i].query == q
    {
      if q == query {
        assert next[|items|].query == q;
      } else {
        var i :| 0 <= i < |items| && items[i].query == q;
        assert next[i].query == q;
      }
    }
  }

  /** Stands for the library sort: any order-respecting rearrangement is the same one here. */
  method Sort(items: seq<TopItem>) returns (sorted: seq<TopItem>)
    requires Apart(items)
    ensures Ordered(sorted) && SameItems(sorted, items)
  {
    sorted := [];
    for n := 0 to |items|
      invariant Ordered(sorted) && SameItems(sorted, items[..n])
    {
      assert items[..n + 1] == items[..n] + [items[n]];
      forall item | item in sorted ensures item.query != items[n].query {
        var i :| 0 <= i < n && items[..n][i] == item;
      }
      sorted := Insert(sorted, items[n]);
    }
    assert items[..|items|] == items;
  }

  method Insert(sorted: seq<TopItem>, x: TopItem) returns (r: seq<TopItem>)
    requires Ordered(sorted) && forall item :: item in sorted ==> item.query != x.query
    ensures Ordered(r) && SameItems(r, sorted + [x])
  {
    hide Before;
    var p := 0;
    while p < |sorted| && Before(sorted[p], x)
      invariant 0 <= p <= |sorted|
      invariant forall i :: 0 <= i < p ==> Before(sorted[i], x)
    {
      p := p + 1;
    }
    forall i | p <= i < |sorted| ensures Before(x, sorted[i]) {
      assert sorted[p] in sorted;
      BeforeTotal(x, sorted[p]);
      if p < i { BeforeTransitive(x, sorted[p], sorted[i]); }
    }
    r := sorted[..p] + [x] + sorted[p..];
    assert sorted == sorted[..p] + sorted[p..];
  }

  method Number(items: seq<TopItem>) returns (r: seq<TopItem>)
    ensures |r| == |items|
    ensures forall i :: 0 <= i < |r| ==> r[i] == items[i].(rank := i + 1)
  {
    r := items;
    for n := 0 to |items|
      invariant |r| == |items|
      invariant forall i :: 0 <= i < n ==> r[i] == items[i].(rank := i + 1)
      invariant forall i :: n <= i < |r| ==> r[i] == items[i]
    {
      r := r[n := r[n].(rank := n + 1)];
    }
  }

  /** The whole pipeline yields the one complete ranking of the listed totals. */
  method Build(totals: map<string, int>) returns (items: seq<TopItem>)
    ensures IsRanking(Listed(totals), items)
  {
    var collected := Collect(totals);
    var sorted := Sort(collected);
    items := Number(sorted);
    SortedIsRanking(totals, collected, sorted, items);
  }

  lemma {:induction false} SortedIsRanking(totals: map<string, int>, collected: seq<TopItem>, sorted: seq<TopItem>,
                                           items: seq<TopItem>)
    requires Collects(totals, totals.Keys, collected) && Ordered(sorted) && SameItems(sorted, collected)
    requires |items| == |sorted| && forall i :: 0 <= i < |items| ==> items[i] == sorted[i].(rank := i + 1)
    ensures IsRanking(Listed(totals), items)
  {
    hide StringLess;
    forall i | 0 <= i < |items| ensures Reports(Listed(totals), items[i]) {
      assert sorted[i] in sorted;
    }
    forall query | query in Listed(totals) ensures exists i :: 0 <= i < |items| && items[i].query == query {
      var k :| 0 <= k < |collected| && collected[k].query == query;
      assert collected[k] in sorted;
      var i :| 0 <= i < |sorted| && sorted[i] == collected[k];
      assert items[i].query == query;
    }
    forall i, j | 0 <= i < j < |items| ensures Before(items[i], items[j]) {
      assert Before(sorted[i], sorted[j]);
    }
  }
}
