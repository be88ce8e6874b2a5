/** Shared vocabulary: optional values, counting maps and Go's units of time. */
module Prelude {
  datatype Option<+T> = None | Some(value: T)

  // Instants and durations are integers in nanoseconds, Go's own resolution.
  const MILLISECOND: int := 1_000_000
  const SECOND: int := 1_000_000_000
  const MINUTE: int := 60 * SECOND

  /** Reading a missing key of a Go map yields the zero value. */
  function Get(m: map<string, int>, key: string): int {
    if key in m then m[key] else 0
  }

  function UnixMilli(now: int): int { now / 1_000_000 }

  // ----- sums over maps

  ghost function SumOver(m: map<string, int>, keys: set<string>): int
    requires keys <= m.Keys
  {
    if keys == {} then 0
    else
      var key :| key in keys;
      m[key] + SumOver(m, keys - {key})
  }

  ghost function SumMap(m: map<string, int>): int { SumOver(m, m.Keys) }

  /** The sum does not depend on the order of iteration. */
  lemma {:induction false} SumOverAny(m: map<string, int>, keys: set<string>, key: string)
    requires key in keys && keys <= m.Keys
    ensures SumOver(m, keys) == m[key] + SumOver(m, keys - {key})
    decreases |keys|
  {
    var first :| first in keys && SumOver(m, keys) == m[first] + SumOver(m, keys - {first});
    if first != key {
      SumOverAny(m, keys - {first}, key);
      SumOverAny(m, keys - {key}, first);
      assert keys - {first} - {key} == keys - {key} - {first};
    }
  }

  lemma {:induction false} SumOverSame(m: map<string, int>, m': map<string, int>, keys: set<string>)
    requires keys <= m.Keys && keys <= m'.Keys
    requires forall key :: key in keys ==> m[key] == m'[key]
    ensures SumOver(m, keys) == SumOver(m', keys)
    decreases |keys|
  {
    if keys != {} {
      var key :| key in keys;
      SumOverAny(m, keys, key);
      SumOverAny(m', keys, key);
      SumOverSame(m, m', keys - {key});
    }
  }

  lemma {:induction false} SumMapSet(m: map<string, int>, key: string, value: int)
    ensures SumMap(m[key := value]) == SumMap(m) - Get(m, key) + value
  {
    var m' := m[key := value];
    SumOverAny(m', m'.Keys, key);
    var rest := m'.Keys - {key};
    SumOverSame(m, m', rest);
    if key in m {
      SumOverAny(m, m.Keys, key);
      assert m.Keys - {key} == rest;
    } else {
      assert m.Keys == rest;
    }
  }
}
