/**
 The anti-fraud rules as a step function on values: the exact specification of
 `Evaluate` (internal/engine/antifraud/rules.go), cleanup and pruning included.
 */
module AntiFraudRules {
  import opened Prelude
  import opened Domain
  import opened TimedMarks

  const CLEANUP_INTERVAL: int := MINUTE

  datatype Config = Config(
    maxRequestsPerMinutePerIP: int,
    ipBlockDuration: int,
    contributionWindow: int,
    maxUniqueQueriesPerSession: int,
    sessionEntropyWindow: int,
    sessionBlockDuration: int)

  predicate ValidConfig(c: Config) {
    && c.maxRequestsPerMinutePerIP > 0
    && c.ipBlockDuration > 0
    && c.contributionWindow > 0
    && c.maxUniqueQueriesPerSession > 0
    && c.sessionEntropyWindow > 0
    && c.sessionBlockDuration > 0
  }

  datatype Request = Request(ip: string, session: string, user: Option<string>, query: string, now: int)

  function RequestOf(evt: SearchEvent, query: string, now: int): Request {
    Request(evt.ipHash, evt.sessionIDHash, evt.userIDHash, query, now)
  }

  /** One constructor per return statement; two of them share a reject reason. */
  datatype Outcome =
    | MissingIdentifiers
    | EmptyQuery
    | InvalidConfig
    | IPBlocked
    | SessionBlocked
    | RateLimited
    | Capped
    | EntropyExceeded
    | Accepted

  function ReasonOf(o: Outcome): Option<RejectReason> {
    match o
    case MissingIdentifiers => Some(MISSING_IDENTIFIERS)
    case EmptyQuery => Some(DEGRADED)
    case InvalidConfig => Some(DEGRADED)
    case IPBlocked => Some(IP_BLOCKED)
    case SessionBlocked => Some(SESSION_ENTROPY)
    case RateLimited => Some(IP_RATE_LIMIT)
    case Capped => Some(CONTRIBUTION_CAP)
    case EntropyExceeded => Some(SESSION_ENTROPY)
    case Accepted => None
  }

  datatype SessionEvent = SessionEvent(at: int, query: string)

  datatype Session = Session(events: seq<SessionEvent>, counts: map<string, int>, lastSeen: int)

  datatype State = State(
    counters: map<string, int>,
    bucketMin: int,
    lastCleanupAt: Option<int>,
    ipBlockedUntil: map<string, int>,
    sessionBlockedUntil: map<string, int>,
    contributionSeen: map<string, int>,
    sessions: map<string, Session>)

  const INITIAL: State := State(map[], 0, None, map[], map[], map[], map[])

  /** `now.Unix() / 60`: whole seconds rounded down, then Go's division, which truncates towards zero. */
  function Minute(now: int): int {
    var unix := now / 1_000_000_000;
    if unix >= 0 then unix / 60 else -((-unix) / 60)
  }

  function IdentityKeys(r: Request): seq<string> {
    ["ip:" + r.ip, "session:" + r.session]
    + if r.user.Some? && r.user.value != "" then ["user:" + r.user.value] else []
  }

  function ContributionKey(identity: string, query: string): string {
    identity + "|" + query
  }

  function KeySet(identities: seq<string>, query: string): set<string> {
    set identity | identity in identities :: ContributionKey(identity, query)
  }

  function CapKeys(r: Request): set<string> { KeySet(IdentityKeys(r), r.query) }

  function Decrement(counts: map<string, int>, query: string): map<string, int> {
    if Get(counts, query) <= 1 then counts - {query} else counts[query := counts[query] - 1]
  }

  /** Drops the events before `cutoff` from the front, uncounting each. */
  function Prune(s: Session, cutoff: int): Session
    decreases |s.events|
  {
    if s.events == [] || cutoff <= s.events[0].at then s
    else Prune(Session(s.events[1..], Decrement(s.counts, s.events[0].query), s.lastSeen), cutoff)
  }

  predicate Idle(s: Session, now: int, window: int) {
    |s.counts| == 0 && now - s.lastSeen > window
  }

  function SweepSessions(sessions: map<string, Session>, now: int, window: int): map<string, Session> {
    map id | id in sessions && !Idle(Prune(sessions[id], now - window), now, window)
      :: Prune(sessions[id], now - window)
  }

  function Cleanup(c: Config, st: State, now: int): State {
    if st.lastCleanupAt.Some? && now - st.lastCleanupAt.value < CLEANUP_INTERVAL then st
    else st.(
      lastCleanupAt := Some(now),
      ipBlockedUntil := Unexpired(st.ipBlockedUntil, now),
      sessionBlockedUntil := Unexpired(st.sessionBlockedUntil, now),
      contributionSeen := Unexpired(st.contributionSeen, now),
      sessions := SweepSessions(st.sessions, now, c.sessionEntropyWindow))
  }

  function CountRequest(st: State, r: Request): State {
    var counters := if st.bucketMin != Minute(r.now) then map[] else st.counters;
    st.(bucketMin := Minute(r.now), counters := counters[r.ip := Get(counters, r.ip) + 1])
  }

  predicate AnyActive(seen: map<string, int>, keys: set<string>, u: int) {
    exists key :: key in keys && Active(seen, key, u)
  }

  /** Overwrites the expiry of every capped key. */
  function Consume(c: Config, seen: map<string, int>, keys: set<string>, now: int): map<string, int> {
    seen + map key | key in keys :: now + c.contributionWindow
  }

  /** A session without an entry starts afresh. */
  function SessionOf(sessions: map<string, Session>, id: string): Session {
    if id in sessions then sessions[id] else Session([], map[], 0)
  }

  /** The session's window after pruning and recording the request. */
  function Observe(c: Config, s: Session, r: Request): Session {
    Record(Prune(s.(lastSeen := r.now), r.now - c.sessionEntropyWindow), SessionEvent(r.now, r.query))
  }

  function Record(s: Session, e: SessionEvent): Session {
    s.(events := s.events + [e], counts := s.counts[e.query := Get(s.counts, e.query) + 1])
  }

  predicate Admissible(c: Config, r: Request) {
    r.ip != "" && r.session != "" && r.query != "" && ValidConfig(c)
  }

  function Step(c: Config, st: State, r: Request): (State, Outcome) {
    if r.ip == "" || r.session == "" then (st, MissingIdentifiers)
    else if r.query == "" then (st, EmptyQuery)
    else if !ValidConfig(c) then (st, InvalidConfig)
    else
      var st' := Cleanup(c, st, r.now);
      Admit(c, st', CapKeys(r), Observe(c, SessionOf(st'.sessions, r.session), r), r)
  }

  /** The order in which the rules are consulted. */
  function Decide(c: Config, ipBlocked: bool, sessionBlocked: bool, requests: int, capped: bool, queries: int): Outcome
  {
    if ipBlocked then IPBlocked
    else if sessionBlocked then SessionBlocked
    else if requests > c.maxRequestsPerMinutePerIP then RateLimited
    else if capped then Capped
    else if queries > c.maxUniqueQueriesPerSession then EntropyExceeded
    else Accepted
  }

  /** The outcomes that reached the per-minute counter. */
  predicate Counts(o: Outcome) {
    o == RateLimited || o == Capped || o == EntropyExceeded || o == Accepted
  }

  /** What each return statement leaves behind. */
  function After(c: Config, st: State, keys: set<string>, s: Session, r: Request, o: Outcome): State {
    if Counts(o) then Settle(c, CountRequest(st, r), keys, s, r, o) else st
  }

  function Settle(c: Config, st: State, keys: set<string>, s: Session, r: Request, o: Outcome): State {
    match o
    case RateLimited =>
      st.(ipBlockedUntil := st.ipBlockedUntil[r.ip := r.now + c.ipBlockDuration])
    case EntropyExceeded =>
      st.(contributionSeen := Consume(c, st.contributionSeen, keys, r.now),
          sessionBlockedUntil := st.sessionBlockedUntil[r.session := r.now + c.sessionBlockDuration],
          sessions := st.sessions - {r.session})
    case Accepted =>
      st.(contributionSeen := Consume(c, st.contributionSeen, keys, r.now),
          sessions := st.sessions[r.session := s])
    case _ => st
  }

  /** `s` is what the session's window becomes if the request gets as far as the entropy rule. */
  function Admit(c: Config, st: State, keys: set<string>, s: Session, r: Request): (State, Outcome) {
    var o := Decide(
      c,
      Active(st.ipBlockedUntil, r.ip, r.now),
      Active(st.sessionBlockedUntil, r.session, r.now),
      Get(CountRequest(st, r).counters, r.ip),
      AnyActive(st.contributionSeen, keys, r.now),
      |s.counts|);
    (After(c, st, keys, s, r, o), o)
  }

  datatype Entry = Entry(req: Request, outcome: Outcome)

  /** A whole run from the freshly built evaluator: its last state and its log. */
  function Run(c: Config, reqs: seq<Request>): (r: (State, seq<Entry>))
    ensures |r.1| == |reqs|
    ensures forall i :: 0 <= i < |reqs| ==> r.1[i].req == reqs[i]
  {
    if reqs == [] then (INITIAL, [])
    else
      var n := |reqs| - 1;
      var (st, log) := Run(c, reqs[..n]);
      var (st', o) := Step(c, st, reqs[n]);
      (st', log + [Entry(reqs[n], o)])
  }

  /** The run hypothesis: the clock handed to `Evaluate` never goes back. */
  ghost predicate Monotone(reqs: seq<Request>) {
    forall i, j :: 0 <= i < j < |reqs| ==> reqs[i].now <= reqs[j].now
  }
}
