/**
 Maps from a key to an expiry instant, seen as a lossy record of a log of timed marks.
 The two block tables, the contribution caps and the dedup store all work this way.
 */
module TimedMarks {

  /** At instant `at`, every key in `keys` is marked. */
  datatype Mark = Mark(keys: set<string>, at: int)

  /** The lookup the code makes: the key is present and its expiry is after `u`. */
  predicate Active(m: map<string, int>, key: string, u: int) {
    key in m && u < m[key]
  }

  function Unexpired(m: map<string, int>, now: int): map<string, int> {
    map key | key in m && now < m[key] :: m[key]
  }

  /** The meaning of a lookup: some logged mark of the key is younger than `d` at `u`. */
  ghost predicate Covered(marks: seq<Mark>, d: int, key: string, u: int) {
    exists i :: 0 <= i < |marks| && key in marks[i].keys && u < marks[i].at + d
  }

  /** From instant `t` on, lookups in `m` answer as the full log of marks does. */
  ghost predicate Tracks(m: map<string, int>, marks: seq<Mark>, d: int, t: int) {
    && (forall i :: 0 <= i < |marks| ==> marks[i].at <= t)
    && (forall key, u :: t <= u ==> (Active(m, key, u) <==> Covered(marks, d, key, u)))
  }

  /** Deleting what has expired by `now` changes no lookup at or after `now`. */
  lemma {:induction false} ExpirePreservesTracks(m: map<string, int>, marks: seq<Mark>, d: int, t: int, now: int)
    requires Tracks(m, marks, d, t) && t <= now
    ensures Tracks(Unexpired(m, now), marks, d, now)
  {
    forall key, u | now <= u
      ensures Active(Unexpired(m, now), key, u) <==> Covered(marks, d, key, u)
    {
      assert Active(Unexpired(m, now), key, u) <==> Active(m, key, u);
    }
  }

  lemma {:induction false} CoveredAppend(marks: seq<Mark>, e: Mark, d: int, key: string, u: int)
    ensures Covered(marks + [e], d, key, u)
            <==> Covered(marks, d, key, u) || (key in e.keys && u < e.at + d)
  {
    var all := marks + [e];
    if Covered(marks, d, key, u) {
      var i :| 0 <= i < |marks| && key in marks[i].keys && u < marks[i].at + d;
      assert all[i] == marks[i];
    }
    if key in e.keys && u < e.at + d {
      assert all[|marks|] == e;
    }
  }

  /** Overwriting the marked keys' expiries keeps the map in step with the longer log. */
  lemma {:induction false} MarkPreservesTracks(m: map<string, int>, marks: seq<Mark>, d: int, now: int,
                                                     keys: set<string>)
    requires Tracks(m, marks, d, now)
    ensures Tracks(m + map key | key in keys :: now + d, marks + [Mark(keys, now)], d, now)
  {
    var m' := m + map key | key in keys :: now + d;
    forall key, u | now <= u
      ensures Active(m', key, u) <==> Covered(marks + [Mark(keys, now)], d, key, u)
    {
      CoveredAppend(marks, Mark(keys, now), d, key, u);
      assert key !in keys ==> (Active(m', key, u) <==> Active(m, key, u));
    }
  }

  lemma {:induction false} MarkOne(m: map<string, int>, marks: seq<Mark>, d: int, now: int, key: string)
    requires Tracks(m, marks, d, now)
    ensures Tracks(m[key := now + d], marks + [Mark({key}, now)], d, now)
  {
    var keys := {key};
    MarkPreservesTracks(m, marks, d, now, keys);
    assert m[key := now + d] == m + map k | k in keys :: now + d;
  }

  /** A log entry that marks nothing needs no write. */
  lemma {:induction false} SkipPreservesTracks(m: map<string, int>, marks: seq<Mark>, d: int, now: int)
    requires Tracks(m, marks, d, now)
    ensures Tracks(m, marks + [Mark({}, now)], d, now)
  {
    forall key, u | now <= u
      ensures Active(m, key, u) <==> Covered(marks + [Mark({}, now)], d, key, u)
    {
      CoveredAppend(marks, Mark({}, now), d, key, u);
    }
  }

  /** The delete-while-ranging loop over one expiry map, in any iteration order. */
  method DropExpired(m: map<string, int>, now: int) returns (r: map<string, int>)
    ensures r == Unexpired(m, now)
  {
    r := m;
    var keys := m.Keys;
    while keys != {}
      invariant keys <= m.Keys
      invariant r == map key | key in m && (key in keys || now < m[key]) :: m[key]
      decreases keys
    {
      var key :| key in keys;
      if r[key] <= now {
        r := r - {key};
      }
      keys := keys - {key};
    }
  }
}
