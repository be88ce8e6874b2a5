/**
 The anti-fraud rules without any bookkeeping: a verdict is decided by filtering the full log of
 earlier verdicts, from which nothing is ever deleted. The lazily cleaned state refines it.
 */
module AntiFraudReference {
  import opened Prelude
  import opened TimedMarks
  import opened AntiFraudRules
  import opened AntiFraudSession

  function LimitMark(e: Entry): Mark {
    Mark(if e.outcome == RateLimited then {e.req.ip} else {}, e.req.now)
  }

  function EntropyMark(e: Entry): Mark {
    Mark(if e.outcome == EntropyExceeded then {e.req.session} else {}, e.req.now)
  }

  // The cap is consumed even when the entropy rule then rejects.
  function CapMark(e: Entry): Mark {
    Mark(if e.outcome == Accepted || e.outcome == EntropyExceeded then CapKeys(e.req) else {}, e.req.now)
  }

  function LimitMarks(log: seq<Entry>): seq<Mark> {
    seq(|log|, i requires 0 <= i < |log| => LimitMark(log[i]))
  }

  function EntropyMarks(log: seq<Entry>): seq<Mark> {
    seq(|log|, i requires 0 <= i < |log| => EntropyMark(log[i]))
  }

  function CapMarks(log: seq<Entry>): seq<Mark> {
    seq(|log|, i requires 0 <= i < |log| => CapMark(log[i]))
  }

  function CountedIn(log: seq<Entry>, ip: string, minute: int): nat {
    if log == [] then 0
    else
      var n := |log| - 1;
      CountedIn(log[..n], ip, minute)
      + if Counts(log[n].outcome) && log[n].req.ip == ip && Minute(log[n].req.now) == minute then 1 else 0
  }

  /** Every query the session was credited with since it last tripped the entropy rule. */
  function Window(log: seq<Entry>, id: string): seq<SessionEvent> {
    if log == [] then []
    else
      var n := |log| - 1;
      var w := Window(log[..n], id);
      if log[n].req.session != id then w
      else if log[n].outcome == Accepted then w + [SessionEvent(log[n].req.now, log[n].req.query)]
      else if log[n].outcome == EntropyExceeded then []
      else w
  }

  function Recent(events: seq<SessionEvent>, cutoff: int): set<string> {
    set e | e in events && cutoff <= e.at :: e.query
  }

  ghost predicate AnyCovered(c: Config, log: seq<Entry>, keys: set<string>, u: int) {
    exists key :: key in keys && Covered(CapMarks(log), c.contributionWindow, key, u)
  }

  ghost function RefOutcome(c: Config, log: seq<Entry>, r: Request): Outcome {
    if r.ip == "" || r.session == "" then MissingIdentifiers
    else if r.query == "" then EmptyQuery
    else if !ValidConfig(c) then InvalidConfig
    else Decide(
      c,
      Covered(LimitMarks(log), c.ipBlockDuration, r.ip, r.now),
      Covered(EntropyMarks(log), c.sessionBlockDuration, r.session, r.now),
      CountedIn(log, r.ip, Minute(r.now)) + 1,
      AnyCovered(c, log, CapKeys(r), r.now),
      |Recent(Window(log, r.session), r.now - c.sessionEntropyWindow) + {r.query}|)
  }

  ghost function RefRun(c: Config, reqs: seq<Request>): seq<Entry> {
    if reqs == [] then []
    else
      var log := RefRun(c, reqs[..|reqs| - 1]);
      var r := reqs[|reqs| - 1];
      log + [Entry(r, RefOutcome(c, log, r))]
  }

  // ----- the refinement relation, one part per table

  ghost predicate CountersAgree(st: State, log: seq<Entry>, t: int) {
    && (forall ip :: Get(st.counters, ip) == CountedIn(log, ip, st.bucketMin))
    && (forall i :: 0 <= i < |log| && Counts(log[i].outcome)
                    ==> Minute(log[i].req.now) <= st.bucketMin <= Minute(t))
  }

  ghost predicate Sorted(w: seq<SessionEvent>) {
    forall i, j :: 0 <= i < j < |w| ==> w[i].at <= w[j].at
  }

  /** The stored list is the full window less a prefix that is too old to matter. */
  ghost predicate SuffixOf(events: seq<SessionEvent>, w: seq<SessionEvent>, horizon: int) {
    && |events| <= |w|
    && w[|w| - |events|..] == events
    && (forall i :: 0 <= i < |w| - |events| ==> w[i].at < horizon)
  }

  ghost predicate WindowAgrees(events: seq<SessionEvent>, w: seq<SessionEvent>, window: int, t: int) {
    && SuffixOf(events, w, t - window)
    && Sorted(w)
    && (forall e :: e in w ==> e.at <= t)
  }

  ghost predicate WindowsAgree(c: Config, sessions: map<string, Session>, log: seq<Entry>, t: int) {
    forall id :: WindowAgrees(SessionOf(sessions, id).events, Window(log, id), c.sessionEntropyWindow, t)
  }

  ghost predicate Represents(c: Config, st: State, log: seq<Entry>, t: int) {
    && Tracks(st.ipBlockedUntil, LimitMarks(log), c.ipBlockDuration, t)
    && Tracks(st.sessionBlockedUntil, EntropyMarks(log), c.sessionBlockDuration, t)
    && Tracks(st.contributionSeen, CapMarks(log), c.contributionWindow, t)
    && CountersAgree(st, log, t)
    && WindowsAgree(c, st.sessions, log, t)
    && AllTallied(st)
  }

  lemma {:induction false} MinuteMonotone(a: int, b: int)
    requires a <= b
    ensures Minute(a) <= Minute(b)
  {
  }

  /** Letting time pass keeps the relation; so does a cleanup at the new time. */
  lemma {:induction false} CleanupRepresents(c: Config, st: State, log: seq<Entry>, t: int, now: int)
    requires Represents(c, st, log, t) && t <= now
    ensures Represents(c, st, log, now)
    ensures Represents(c, Cleanup(c, st, now), log, now)
  {
    MinuteMonotone(t, now);
    ExpirePreservesTracks(st.ipBlockedUntil, LimitMarks(log), c.ipBlockDuration, t, now);
    ExpirePreservesTracks(st.sessionBlockedUntil, EntropyMarks(log), c.sessionBlockDuration, t, now);
    ExpirePreservesTracks(st.contributionSeen, CapMarks(log), c.contributionWindow, t, now);
    CleanupTallied(c, st, now);
    CleanupWindows(c, st, log, t, now);
  }

  lemma {:induction false} CleanupWindows(c: Config, st: State, log: seq<Entry>, t: int, now: int)
    requires WindowsAgree(c, st.sessions, log, t) && AllTallied(st) && t <= now
    ensures WindowsAgree(c, st.sessions, log, now)
    ensures WindowsAgree(c, SweepSessions(st.sessions, now, c.sessionEntropyWindow), log, now)
  {
    hide Prune, Tallied, SuffixOf, Window;
    var swept := SweepSessions(st.sessions, now, c.sessionEntropyWindow);
    forall id
      ensures WindowAgrees(SessionOf(st.sessions, id).events, Window(log, id), c.sessionEntropyWindow, now)
      ensures WindowAgrees(SessionOf(swept, id).events, Window(log, id), c.sessionEntropyWindow, now)
    {
      assert WindowAgrees(SessionOf(st.sessions, id).events, Window(log, id), c.sessionEntropyWindow, t);
      HorizonGrows(SessionOf(st.sessions, id).events, Window(log, id), c.sessionEntropyWindow, t, now);
      if id in st.sessions {
        SweepKeepsWindow(c, st.sessions[id], Window(log, id), now);
      }
    }
  }

  lemma {:induction false} HorizonGrows(events: seq<SessionEvent>, w: seq<SessionEvent>, window: int, t: int, now: int)
    requires WindowAgrees(events, w, window, t) && t <= now
    ensures WindowAgrees(events, w, window, now)
  {
  }

  /** A session deleted as idle has nothing left in its window. */
  lemma {:induction false} SweepKeepsWindow(c: Config, s: Session, w: seq<SessionEvent>, now: int)
    requires Tallied(s) && SuffixOf(s.events, w, now - c.sessionEntropyWindow)
    ensures var p := Prune(s, now - c.sessionEntropyWindow);
      && SuffixOf(p.events, w, now - c.sessionEntropyWindow)
      && (Idle(p, now, c.sessionEntropyWindow) ==> p.events == [])
  {
    hide Prune, Tallied, SuffixOf;
    PruneKeepsSuffix(s, w, now - c.sessionEntropyWindow);
    NoCountsNoEvents(Prune(s, now - c.sessionEntropyWindow));
  }

  lemma {:induction false} NoCountsNoEvents(s: Session)
    requires Tallied(s)
    ensures |s.counts| == 0 ==> s.events == []
  {
    if s.events != [] {
      assert s.events[0].query in Queries(s.events);
      assert s.events[0].query in s.counts;
    }
  }

  lemma {:induction false} PruneKeepsSuffix(s: Session, w: seq<SessionEvent>, cutoff: int)
    requires Tallied(s) && SuffixOf(s.events, w, cutoff)
    ensures var p := Prune(s, cutoff);
      && SuffixOf(p.events, w, cutoff)
      && Tallied(p)
      && (p.events != [] ==> cutoff <= p.events[0].at)
  {
    var k := PruneCutsPrefix(s, cutoff);
    CutSuffix(s.events, w, cutoff, k);
  }

  lemma {:induction false} CutSuffix(events: seq<SessionEvent>, w: seq<SessionEvent>, cutoff: int, k: nat)
    requires SuffixOf(events, w, cutoff) && k <= |events|
    requires forall i :: 0 <= i < k ==> events[i].at < cutoff
    ensures SuffixOf(events[k..], w, cutoff)
  {
    var n := |w| - |events|;
    assert w[n + k..] == events[k..];
    forall i | 0 <= i < n + k ensures w[i].at < cutoff {
      if n <= i { assert w[i] == events[i - n]; }
    }
  }

  // ----- one step

  lemma {:induction false} MarksAppend(log: seq<Entry>, e: Entry)
    ensures LimitMarks(log + [e]) == LimitMarks(log) + [LimitMark(e)]
    ensures EntropyMarks(log + [e]) == EntropyMarks(log) + [EntropyMark(e)]
    ensures CapMarks(log + [e]) == CapMarks(log) + [CapMark(e)]
  {
  }

  /** A key that is absent from the current minute's table was not counted in it. */
  lemma {:induction false} NoneCountedIn(log: seq<Entry>, ip: string, minute: int)
    requires forall i :: 0 <= i < |log| && Counts(log[i].outcome) ==> Minute(log[i].req.now) != minute
    ensures CountedIn(log, ip, minute) == 0
  {
    if log != [] {
      NoneCountedIn(log[..|log| - 1], ip, minute);
    }
  }

  lemma {:induction false} CounterValue(st: State, log: seq<Entry>, r: Request)
    requires CountersAgree(st, log, r.now)
    ensures Get(CountRequest(st, r).counters, r.ip) == CountedIn(log, r.ip, Minute(r.now)) + 1
    ensures forall ip :: ip != r.ip
                         ==> Get(CountRequest(st, r).counters, ip) == CountedIn(log, ip, Minute(r.now))
  {
    if st.bucketMin != Minute(r.now) {
      forall ip ensures CountedIn(log, ip, Minute(r.now)) == 0 {
        NoneCountedIn(log, ip, Minute(r.now));
      }
    }
  }

  lemma {:induction false} CountersStep(st: State, log: seq<Entry>, r: Request, o: Outcome)
    requires CountersAgree(st, log, r.now)
    ensures Counts(o) ==> CountersAgree(CountRequest(st, r), log + [Entry(r, o)], r.now)
    ensures !Counts(o) ==> CountersAgree(st, log + [Entry(r, o)], r.now)
  {
    var log' := log + [Entry(r, o)];
    assert log'[..|log|] == log;
    CounterValue(st, log, r);
    forall i | 0 <= i < |log'| && Counts(log'[i].outcome)
      ensures i < |log| ==> Minute(log'[i].req.now) <= st.bucketMin <= Minute(r.now)
    {
    }
  }

  /** The session's window, pruned for this request, holds exactly its recent queries. */
  lemma {:induction false} ObserveWindow(c: Config, s: Session, w: seq<SessionEvent>, r: Request)
    requires Tallied(s) && WindowAgrees(s.events, w, c.sessionEntropyWindow, r.now)
    ensures var w' := w + [SessionEvent(r.now, r.query)];
      WindowAgrees(Observe(c, s, r).events, w', c.sessionEntropyWindow, r.now)
    ensures |Observe(c, s, r).counts| == |Recent(w, r.now - c.sessionEntropyWindow) + {r.query}|
  {
    hide Prune, Record, Recent, Tallied, SuffixOf, Sorted;
    var s1, cutoff, e := s.(lastSeen := r.now), r.now - c.sessionEntropyWindow, SessionEvent(r.now, r.query);
    assert Tallied(s1) by { SameTally(s, r.now); }
    PruneKeepsSuffix(s1, w, cutoff);
    RecordInWindow(Prune(s1, cutoff), w, c.sessionEntropyWindow, e);
  }

  lemma {:induction false} SameTally(s: Session, now: int)
    requires Tallied(s)
    ensures Tallied(s.(lastSeen := now))
  {
  }

  lemma {:induction false} RecordInWindow(s: Session, w: seq<SessionEvent>, window: int, e: SessionEvent)
    requires Tallied(s) && WindowAgrees(s.events, w, window, e.at)
    requires s.events != [] ==> e.at - window <= s.events[0].at
    ensures WindowAgrees(Record(s, e).events, w + [e], window, e.at)
    ensures |Record(s, e).counts| == |Recent(w, e.at - window) + {e.query}|
  {
    hide Tally, Queries, SuffixOf, Recent, Tallied, Sorted, WindowAgrees;
    SuffixAppend(s.events, w, window, e);
    assert Queries(s.events) == Recent(w, e.at - window) by { AgreesIsRecent(s.events, w, window, e.at); }
    QueriesAppend(s.events, e);
    RecordedTally(s, e);
    TallySize(s.events + [e]);
  }

  lemma {:induction false} AgreesIsRecent(events: seq<SessionEvent>, w: seq<SessionEvent>, window: int, now: int)
    requires WindowAgrees(events, w, window, now)
    requires events != [] ==> now - window <= events[0].at
    ensures Queries(events) == Recent(w, now - window)
  {
    SuffixIsRecent(events, w, now - window);
  }

  lemma {:induction false} RecordedTally(s: Session, e: SessionEvent)
    requires Tallied(s)
    ensures Tallied(Record(s, e)) && Record(s, e).counts == Tally(s.events + [e])
  {
    RecordTallied(s, e);
  }

  lemma {:induction false} SuffixAppend(events: seq<SessionEvent>, w: seq<SessionEvent>, window: int, e: SessionEvent)
    requires WindowAgrees(events, w, window, e.at)
    ensures WindowAgrees(events + [e], w + [e], window, e.at)
  {
    assert (w + [e])[|w| - |events|..] == events + [e];
    forall i, j | 0 <= i < j < |w + [e]| ensures (w + [e])[i].at <= (w + [e])[j].at {
      assert w != [] ==> w[i] in w;
    }
  }

  lemma {:induction false} QueriesAppend(events: seq<SessionEvent>, e: SessionEvent)
    ensures Queries(events + [e]) == Queries(events) + {e.query}
  {
  }

  lemma {:induction false} SuffixIsRecent(events: seq<SessionEvent>, w: seq<SessionEvent>, cutoff: int)
    requires Sorted(w) && SuffixOf(events, w, cutoff)
    requires events != [] ==> cutoff <= events[0].at
    ensures Queries(events) == Recent(w, cutoff)
  {
    var n := |w| - |events|;
    forall e | e in events ensures e in w && cutoff <= e.at {
      var i :| 0 <= i < |events| && events[i] == e;
      assert w[n + i] == e && w[n] == events[0];
    }
    forall e | e in w && cutoff <= e.at ensures e in events {
      var i :| 0 <= i < |w| && w[i] == e;
      assert events[i - n] == e;
    }
  }

  // One lemma per return statement: the state it leaves represents the log with its verdict added.

  lemma {:induction false} WindowsStep(c: Config, sessions: map<string, Session>, log: seq<Entry>, s: Session,
                                         r: Request, o: Outcome)
    requires WindowsAgree(c, sessions, log, r.now)
    requires o == Accepted ==> WindowAgrees(s.events, Window(log, r.session) + [SessionEvent(r.now, r.query)],
                                            c.sessionEntropyWindow, r.now)
    ensures o == Accepted ==> WindowsAgree(c, sessions[r.session := s], log + [Entry(r, o)], r.now)
    ensures o == EntropyExceeded ==> WindowsAgree(c, sessions - {r.session}, log + [Entry(r, o)], r.now)
    ensures o != Accepted && o != EntropyExceeded ==> WindowsAgree(c, sessions, log + [Entry(r, o)], r.now)
  {
    var log' := log + [Entry(r, o)];
    assert log'[..|log|] == log;
    var sessions' := if o == Accepted then sessions[r.session := s]
                     else if o == EntropyExceeded then sessions - {r.session} else sessions;
    forall id
      ensures WindowAgrees(SessionOf(sessions', id).events, Window(log', id), c.sessionEntropyWindow, r.now)
    {
      assert WindowAgrees(SessionOf(sessions, id).events, Window(log, id), c.sessionEntropyWindow, r.now);
    }
  }

  /** A request stopped before the counter leaves every table as it was. */
  lemma {:induction false} Untouched(c: Config, st: State, log: seq<Entry>, r: Request, o: Outcome)
    requires Represents(c, st, log, r.now) && !Counts(o)
    ensures Represents(c, st, log + [Entry(r, o)], r.now)
  {
    hide Covered, Active, CapKeys, Window, CountedIn, WindowAgrees, Tallied;
    MarksAppend(log, Entry(r, o));
    SkipPreservesTracks(st.ipBlockedUntil, LimitMarks(log), c.ipBlockDuration, r.now);
    SkipPreservesTracks(st.sessionBlockedUntil, EntropyMarks(log), c.sessionBlockDuration, r.now);
    SkipPreservesTracks(st.contributionSeen, CapMarks(log), c.contributionWindow, r.now);
    CountersStep(st, log, r, o);
    WindowsStep(c, st.sessions, log, Session([], map[], 0), r, o);
  }

  lemma {:induction false} LimitTripped(c: Config, st: State, log: seq<Entry>, s: Session, r: Request)
    requires Represents(c, st, log, r.now)
    ensures Represents(c, After(c, st, CapKeys(r), s, r, RateLimited), log + [Entry(r, RateLimited)], r.now)
  {
    hide Covered, Active, CapKeys, Window, CountedIn, WindowAgrees, Tallied;
    MarksAppend(log, Entry(r, RateLimited));
    MarkOne(st.ipBlockedUntil, LimitMarks(log), c.ipBlockDuration, r.now, r.ip);
    SkipPreservesTracks(st.sessionBlockedUntil, EntropyMarks(log), c.sessionBlockDuration, r.now);
    SkipPreservesTracks(st.contributionSeen, CapMarks(log), c.contributionWindow, r.now);
    CountersStep(st, log, r, RateLimited);
    WindowsStep(c, st.sessions, log, s, r, RateLimited);
  }

  lemma {:induction false} CapHit(c: Config, st: State, log: seq<Entry>, s: Session, r: Request)
    requires Represents(c, st, log, r.now)
    ensures Represents(c, After(c, st, CapKeys(r), s, r, Capped), log + [Entry(r, Capped)], r.now)
  {
    hide Covered, Active, CapKeys, Window, CountedIn, WindowAgrees, Tallied;
    MarksAppend(log, Entry(r, Capped));
    SkipPreservesTracks(st.ipBlockedUntil, LimitMarks(log), c.ipBlockDuration, r.now);
    SkipPreservesTracks(st.sessionBlockedUntil, EntropyMarks(log), c.sessionBlockDuration, r.now);
    SkipPreservesTracks(st.contributionSeen, CapMarks(log), c.contributionWindow, r.now);
    CountersStep(st, log, r, Capped);
    WindowsStep(c, st.sessions, log, s, r, Capped);
  }

  lemma {:induction false} EntropyTripped(c: Config, st: State, log: seq<Entry>, s: Session, r: Request)
    requires Represents(c, st, log, r.now)
    ensures Represents(c, After(c, st, CapKeys(r), s, r, EntropyExceeded), log + [Entry(r, EntropyExceeded)], r.now)
  {
    hide Covered, Active, CapKeys, Window, CountedIn, WindowAgrees, Tallied;
    MarksAppend(log, Entry(r, EntropyExceeded));
    SkipPreservesTracks(st.ipBlockedUntil, LimitMarks(log), c.ipBlockDuration, r.now);
    MarkOne(st.sessionBlockedUntil, EntropyMarks(log), c.sessionBlockDuration, r.now, r.session);
    MarkPreservesTracks(st.contributionSeen, CapMarks(log), c.contributionWindow, r.now, CapKeys(r));
    CountersStep(st, log, r, EntropyExceeded);
    WindowsStep(c, st.sessions, log, s, r, EntropyExceeded);
  }

  lemma {:induction false} Credited(c: Config, st: State, log: seq<Entry>, s: Session, r: Request)
    requires Represents(c, st, log, r.now) && Tallied(s)
    requires WindowAgrees(s.events, Window(log, r.session) + [SessionEvent(r.now, r.query)],
                          c.sessionEntropyWindow, r.now)
    ensures Represents(c, After(c, st, CapKeys(r), s, r, Accepted), log + [Entry(r, Accepted)], r.now)
  {
    hide Covered, Active, CapKeys, Window, CountedIn, WindowAgrees, Tallied;
    MarksAppend(log, Entry(r, Accepted));
    SkipPreservesTracks(st.ipBlockedUntil, LimitMarks(log), c.ipBlockDuration, r.now);
    SkipPreservesTracks(st.sessionBlockedUntil, EntropyMarks(log), c.sessionBlockDuration, r.now);
    MarkPreservesTracks(st.contributionSeen, CapMarks(log), c.contributionWindow, r.now, CapKeys(r));
    CountersStep(st, log, r, Accepted);
    WindowsStep(c, st.sessions, log, s, r, Accepted);
  }

  /** Each lookup the rules make answers as the full log does. */
  lemma {:induction false} LookupsAgree(c: Config, st: State, log: seq<Entry>, r: Request)
    requires Represents(c, st, log, r.now)
    ensures Active(st.ipBlockedUntil, r.ip, r.now) <==> Covered(LimitMarks(log), c.ipBlockDuration, r.ip, r.now)
    ensures Active(st.sessionBlockedUntil, r.session, r.now)
            <==> Covered(EntropyMarks(log), c.sessionBlockDuration, r.session, r.now)
    ensures Get(CountRequest(st, r).counters, r.ip) == CountedIn(log, r.ip, Minute(r.now)) + 1
    ensures forall keys :: AnyActive(st.contributionSeen, keys, r.now) <==> AnyCovered(c, log, keys, r.now)
  {
    CounterValue(st, log, r);
  }

  lemma {:induction false} AdmitRepresents(c: Config, st: State, log: seq<Entry>, s: Session, r: Request, o: Outcome)
    requires Represents(c, st, log, r.now) && Tallied(s)
    requires WindowAgrees(s.events, Window(log, r.session) + [SessionEvent(r.now, r.query)],
                          c.sessionEntropyWindow, r.now)
    ensures Represents(c, After(c, st, CapKeys(r), s, r, o), log + [Entry(r, o)], r.now)
  {
    hide Represents, WindowAgrees, Tallied;
    match o
    case RateLimited => LimitTripped(c, st, log, s, r);
    case Capped => CapHit(c, st, log, s, r);
    case EntropyExceeded => EntropyTripped(c, st, log, s, r);
    case Accepted => Credited(c, st, log, s, r);
    case _ => Untouched(c, st, log, r, o);
  }

  lemma {:induction false} SessionRepresented(c: Config, st: State, log: seq<Entry>, id: string, t: int)
    requires Represents(c, st, log, t)
    ensures Tallied(SessionOf(st.sessions, id))
    ensures WindowAgrees(SessionOf(st.sessions, id).events, Window(log, id), c.sessionEntropyWindow, t)
  {
  }

  lemma {:induction false} StepRefines(c: Config, st: State, log: seq<Entry>, t: int, r: Request)
    requires Represents(c, st, log, t) && t <= r.now
    ensures Step(c, st, r).1 == RefOutcome(c, log, r)
    ensures Represents(c, Step(c, st, r).0, log + [Entry(r, Step(c, st, r).1)], r.now)
  {
    hide Represents, Cleanup, Observe, CapKeys, Recent, Window, CountRequest, WindowAgrees, Tallied, After,
         AnyActive, Active, Covered, AnyCovered, CountedIn, SessionOf, Minute;
    CleanupRepresents(c, st, log, t, r.now);
    if Admissible(c, r) {
      var st1 := Cleanup(c, st, r.now);
      var s := SessionOf(st1.sessions, r.session);
      SessionRepresented(c, st1, log, r.session, r.now);
      ObserveWindow(c, s, Window(log, r.session), r);
      ObserveTallied(c, s, r);
      LookupsAgree(c, st1, log, r);
      AdmitRepresents(c, st1, log, Observe(c, s, r), r, Step(c, st, r).1);
    } else {
      Untouched(c, st, log, r, Step(c, st, r).1);
    }
  }

  lemma {:induction false} RunRepresents(c: Config, reqs: seq<Request>, t: int)
    requires Monotone(reqs)
    requires reqs != [] ==> reqs[|reqs| - 1].now <= t
    ensures Run(c, reqs).1 == RefRun(c, reqs)
    ensures Represents(c, Run(c, reqs).0, Run(c, reqs).1, t)
  {
    if reqs != [] {
      var n := |reqs| - 1;
      RunRepresents(c, reqs[..n], reqs[n].now);
      StepRefines(c, Run(c, reqs[..n]).0, Run(c, reqs[..n]).1, reqs[n].now, reqs[n]);
      CleanupRepresents(c, Run(c, reqs).0, Run(c, reqs).1, reqs[n].now, t);
    }
  }

  /** Cleanup and pruning are invisible: every verdict is the one the full history calls for. */
  lemma {:induction false} CleanupInvisible(c: Config, reqs: seq<Request>)
    requires Monotone(reqs)
    ensures Run(c, reqs).1 == RefRun(c, reqs)
  {
    RunRepresents(c, reqs, if reqs == [] then 0 else reqs[|reqs| - 1].now);
  }
}
