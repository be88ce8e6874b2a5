/** The time-limited set of event ids already processed. */
module Dedup {
  import opened Prelude
  import opened TimedMarks

  const DEFAULT_TTL: int := 10 * MINUTE

  datatype Call = Call(key: string, now: int)

  /** One call on the map of expiries: the next map and whether the key was a duplicate. */
  function SeenStep(ttl: int, seen: map<string, int>, call: Call): (map<string, int>, bool) {
    if call.key == "" then (seen, false)
    else
      var seen := Unexpired(seen, call.now);
      if Active(seen, call.key, call.now) then (seen, true)
      else (seen[call.key := call.now + ttl], false)
  }

  function SeenRun(ttl: int, calls: seq<Call>): (r: (map<string, int>, seq<bool>))
    ensures |r.1| == |calls|
  {
    if calls == [] then (map[], [])
    else
      var n := |calls| - 1;
      var (seen, hits) := SeenRun(ttl, calls[..n]);
      var (seen', hit) := SeenStep(ttl, seen, calls[n]);
      (seen', hits + [hit])
  }

  ghost predicate Monotone(calls: seq<Call>) {
    forall i, j :: 0 <= i < j < |calls| ==> calls[i].now <= calls[j].now
  }

  /** The key was freshly added less than `ttl` ago; a hit is not a fresh addition. */
  ghost predicate FreshWithin(ttl: int, calls: seq<Call>, hits: seq<bool>, call: Call)
    requires |hits| == |calls|
  {
    exists i :: 0 <= i < |calls| && calls[i].key == call.key && !hits[i] && call.now < calls[i].now + ttl
  }

  function FreshMark(call: Call, hit: bool): Mark {
    Mark(if call.key != "" && !hit then {call.key} else {}, call.now)
  }

  function FreshMarks(calls: seq<Call>, hits: seq<bool>): seq<Mark>
    requires |hits| == |calls|
  {
    seq(|calls|, i requires 0 <= i < |calls| => FreshMark(calls[i], hits[i]))
  }

  lemma {:induction false} CoveredIsFresh(ttl: int, calls: seq<Call>, hits: seq<bool>, call: Call)
    requires |hits| == |calls| && call.key != ""
    ensures Covered(FreshMarks(calls, hits), ttl, call.key, call.now) <==> FreshWithin(ttl, calls, hits, call)
  {
    var marks := FreshMarks(calls, hits);
    if FreshWithin(ttl, calls, hits, call) {
      var i :| 0 <= i < |calls| && calls[i].key == call.key && !hits[i] && call.now < calls[i].now + ttl;
      assert marks[i] == FreshMark(calls[i], hits[i]);
    }
  }

  /** The cleaned map answers as the full call history does, from the last call on. */
  lemma {:induction false} RunTracks(ttl: int, calls: seq<Call>, t: int)
    requires Monotone(calls) && (calls != [] ==> calls[|calls| - 1].now <= t)
    ensures var (seen, hits) := SeenRun(ttl, calls); Tracks(seen, FreshMarks(calls, hits), ttl, t)
  {
    hide Tracks, Covered;
    var (seen, hits) := SeenRun(ttl, calls);
    if calls == [] {
      NothingTracks(ttl, t);
    } else {
      var n := |calls| - 1;
      var call := calls[n];
      var (seen0, hits0) := SeenRun(ttl, calls[..n]);
      RunTracks(ttl, calls[..n], call.now);
      var marks0 := FreshMarks(calls[..n], hits0);
      assert FreshMarks(calls, hits) == marks0 + [FreshMark(call, hits[n])];
      ExpirePreservesTracks(seen0, marks0, ttl, call.now, call.now);
      if call.key == "" || hits[n] {
        SkipPreservesTracks(seen, marks0, ttl, call.now);
      } else {
        MarkOne(Unexpired(seen0, call.now), marks0, ttl, call.now, call.key);
      }
      LaterTracks(seen, FreshMarks(calls, hits), ttl, call.now, t);
    }
  }

  lemma {:induction false} NothingTracks(ttl: int, t: int)
    ensures Tracks(map[], [], ttl, t)
  {
  }

  lemma {:induction false} LaterTracks(m: map<string, int>, marks: seq<Mark>, d: int, t: int, u: int)
    requires Tracks(m, marks, d, t) && t <= u
    ensures Tracks(m, marks, d, u)
  {
  }

  /** `SeenOrAdd` reports a duplicate exactly when the key was freshly added less than TTL ago. */
  lemma {:induction false} SeenExact(ttl: int, calls: seq<Call>, call: Call)
    requires Monotone(calls + [call])
    ensures var (seen, hits) := SeenRun(ttl, calls);
      SeenStep(ttl, seen, call).1 <==> call.key != "" && FreshWithin(ttl, calls, hits, call)
  {
    var all := calls + [call];
    assert all[|calls|] == call;
    assert forall i, j :: 0 <= i < j < |calls| ==> all[i].now <= all[j].now && all[i] == calls[i] && all[j] == calls[j];
    if calls != [] { assert all[|calls| - 1] == calls[|calls| - 1]; }
    var (seen, hits) := SeenRun(ttl, calls);
    RunTracks(ttl, calls, call.now);
    if call.key != "" {
      CoveredIsFresh(ttl, calls, hits, call);
      assert Active(seen, call.key, call.now) <==> Active(Unexpired(seen, call.now), call.key, call.now);
    }
  }

  class Store {
    const ttl: int
    var seen: map<string, int>

    ghost var calls: seq<Call>  // every call so far

    ghost predicate Valid()
      reads this
    {
      ttl > 0 && seen == SeenRun(ttl, calls).0
    }

    constructor (requested: int)
      ensures Valid() && calls == []
      ensures ttl == if requested > 0 then requested else 600_000_000_000
    {
      ttl := if requested <= 0 then DEFAULT_TTL else requested;
      seen := map[];
      calls := [];
    }

    method SeenOrAdd(key: string, now: int) returns (duplicate: bool)
      requires Valid()
      modifies this
      ensures Valid() && calls == old(calls) + [Call(key, now)]
      ensures (seen, duplicate) == SeenStep(ttl, old(seen), Call(key, now))
      ensures Monotone(calls)
        ==> (duplicate <==> key != "" && FreshWithin(ttl, old(calls), SeenRun(ttl, old(calls)).1, Call(key, now)))
    {
      hide SeenRun, FreshWithin, Unexpired;
      ghost var call := Call(key, now);
      RunAppend(ttl, calls, call);
      if Monotone(calls + [call]) {
        SeenExact(ttl, calls, call);
      }
      calls := calls + [call];
      if key == "" {
        return false;
      }
      seen := DropExpired(seen, now);
      if key in seen && now < seen[key] {
        return true;
      }
      seen := seen[key := now + ttl];
      return false;
    }
  }

  lemma {:induction false} RunAppend(ttl: int, calls: seq<Call>, call: Call)
    ensures SeenRun(ttl, calls + [call]).0 == SeenStep(ttl, SeenRun(ttl, calls).0, call).0
  {
    assert (calls + [call])[..|calls|] == calls;
  }
}
