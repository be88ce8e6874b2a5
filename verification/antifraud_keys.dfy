/** When the flat `identity|query` keys tell two contributions apart, and when they do not. */
module AntiFraudKeys {
  import opened Prelude
  import opened TimedMarks
  import opened AntiFraudRules
  import opened AntiFraudReference
  import opened AntiFraudSafety

  ghost predicate KeysMeet(a: Request, b: Request) {
    exists key :: key in CapKeys(a) && key in CapKeys(b)
  }

  predicate BarFreeIds(r: Request) {
    '|' !in r.ip && '|' !in r.session && (r.user.Some? ==> '|' !in r.user.value)
  }

  /** Bar-free ids (the event schema's id patterns) or bar-free queries (the normalizer's output) suffice. */
  predicate Separable(a: Request, b: Request) {
    || (BarFreeIds(a) && BarFreeIds(b))
    || ('|' !in a.query && '|' !in b.query)
  }

  lemma {:induction false} SplitAtBar(x: string, q: string, y: string, p: string)
    requires x + "|" + q == y + "|" + p
    requires ('|' !in x && '|' !in y) || ('|' !in q && '|' !in p)
    ensures x == y && q == p
  {
    var s := x + "|" + q;
    var t := y + "|" + p;
    assert s[|x|] == '|' && t[|y|] == '|';
    assert forall i :: 0 <= i < |x| ==> s[i] == x[i];
    assert forall i :: 0 <= i < |y| ==> t[i] == y[i];
    assert forall i :: |x| < i < |s| ==> s[i] == q[i - |x| - 1];
    assert forall i :: |y| < i < |t| ==> t[i] == p[i - |y| - 1];
    assert |x| == |y|;
    assert x == s[..|x|] && y == t[..|y|];
    assert q == s[|x| + 1..] && p == t[|y| + 1..];
  }

  lemma {:induction false} SplitTagged(tag: string, x: string, q: string, y: string, p: string)
    requires (tag + x) + "|" + q == (tag + y) + "|" + p
    requires '|' !in tag
    requires ('|' !in x && '|' !in y) || ('|' !in q && '|' !in p)
    ensures x == y && q == p
  {
    SplitAtBar(tag + x, q, tag + y, p);
    assert x == (tag + x)[|tag|..] && y == (tag + y)[|tag|..];
  }

  /** The kind of an identity, readable off its first character. */
  lemma {:induction false} KeyShape(r: Request, key: string) returns (tag: string, id: string)
    requires key in CapKeys(r)
    ensures key == (tag + id) + "|" + r.query && tag != "" && |key| > 0 && key[0] == tag[0]
    ensures || (tag == "ip:" && id == r.ip)
            || (tag == "session:" && id == r.session)
            || (tag == "user:" && r.user.Some? && id == r.user.value && id != "")
  {
    var identity :| identity in IdentityKeys(r) && key == ContributionKey(identity, r.query);
    if identity == "ip:" + r.ip {
      tag, id := "ip:", r.ip;
    } else if identity == "session:" + r.session {
      tag, id := "session:", r.session;
    } else {
      tag, id := "user:", r.user.value;
    }
  }

  /** Under separability two requests collide exactly when they share a query and an identity. */
  lemma {:induction false} KeysMeetIff(a: Request, b: Request)
    requires Separable(a, b)
    ensures KeysMeet(a, b) <==> a.query == b.query && ShareIdentity(a, b)
  {
    hide CapKeys;
    if KeysMeet(a, b) {
      var key :| key in CapKeys(a) && key in CapKeys(b);
      var tag, x := KeyShape(a, key);
      var tag', y := KeyShape(b, key);
      assert tag == tag' by {
        assert tag[0] == tag'[0];
        assert "ip:"[0] == 'i' && "session:"[0] == 's' && "user:"[0] == 'u';
      }
      SplitTagged(tag, x, a.query, y, b.query);
    }
    if a.query == b.query && ShareIdentity(a, b) {
      var key := SharedKey(a, b);
    }
  }

  ghost predicate CapConflict(c: Config, log: seq<Entry>, r: Request) {
    exists i :: 0 <= i < |log| && Consumes(log[i].outcome) && r.now < log[i].req.now + c.contributionWindow
                && log[i].req.query == r.query && ShareIdentity(log[i].req, r)
  }

  /** A request that reaches the cap is turned away exactly for a real conflict in the full history. */
  lemma {:induction false} CapExact(c: Config, reqs: seq<Request>, j: nat)
    requires Monotone(reqs) && j < |reqs|
    requires forall i :: 0 <= i < j ==> Separable(reqs[i], reqs[j])
    ensures var log := History(c, reqs);
      Counts(log[j].outcome) && log[j].outcome != RateLimited
      ==> (log[j].outcome == Capped <==> CapConflict(c, log[..j], reqs[j]))
  {
    hide Run, CountedIn, Window, Recent, CapKeys, ShareIdentity, Separable, Minute, CapConflict, AnyCovered;
    var log := History(c, reqs);
    Explained(c, reqs, j);
    CoverIsConflict(c, log[..j], reqs[j]);
  }

  lemma {:induction false} CoverIsConflict(c: Config, log: seq<Entry>, r: Request)
    requires forall i :: 0 <= i < |log| ==> Separable(log[i].req, r)
    ensures AnyCovered(c, log, CapKeys(r), r.now) <==> CapConflict(c, log, r)
  {
    hide CapKeys, ShareIdentity, Separable;
    var marks := CapMarks(log);
    forall i | 0 <= i < |log|
      ensures (exists key :: key in CapKeys(log[i].req) && key in CapKeys(r))
              <==> log[i].req.query == r.query && ShareIdentity(log[i].req, r)
    {
      KeysMeetIff(log[i].req, r);
      assert KeysMeet(log[i].req, r) <==> (exists key :: key in CapKeys(log[i].req) && key in CapKeys(r));
    }
    if CapConflict(c, log, r) {
      var i :| 0 <= i < |log| && Consumes(log[i].outcome) && r.now < log[i].req.now + c.contributionWindow
               && log[i].req.query == r.query && ShareIdentity(log[i].req, r);
      var key :| key in CapKeys(log[i].req) && key in CapKeys(r);
      assert marks[i] == CapMark(log[i]);
      assert Covered(marks, c.contributionWindow, key, r.now);
    }
    if AnyCovered(c, log, CapKeys(r), r.now) {
      var key :| key in CapKeys(r) && Covered(marks, c.contributionWindow, key, r.now);
      var i :| 0 <= i < |marks| && key in marks[i].keys && r.now < marks[i].at + c.contributionWindow;
      assert marks[i] == CapMark(log[i]);
    }
  }

  // ----- which requests no other request can be confused with

  predicate BarIn(s: string, lo: int, hi: int)
    requires 0 <= lo && hi <= |s|
  {
    exists i :: lo <= i < hi && s[i] == '|'
  }

  /** `edge` is 1 for the requests that get past the identifier checks, 0 for all. */
  predicate Identified(r: Request, edge: nat) {
    |r.ip| >= edge && |r.session| >= edge && |r.query| >= edge
  }

  /** No bar in the ids but for the first `edge` characters, none in the query but for the last `edge`. */
  predicate Unambiguous(r: Request, edge: nat)
    requires Identified(r, edge)
  {
    && !BarIn(r.ip, edge, |r.ip|)
    && !BarIn(r.session, edge, |r.session|)
    && (r.user.Some? ==> !BarIn(r.user.value, 1, |r.user.value|))
    && !BarIn(r.query, 0, |r.query| - edge)
  }

  ghost predicate KeysSafe(a: Request, edge: nat) {
    forall b :: Identified(b, edge) && KeysMeet(a, b) ==> a.query == b.query && ShareIdentity(a, b)
  }

  /** The bar between id and query is the only one at which the key can be split. */
  lemma {:induction false} SplitUnique(x: string, q: string, y: string, p: string, lo: nat, edge: nat)
    requires x + "|" + q == y + "|" + p
    requires lo <= |x| && lo <= |y| && edge <= |q| && edge <= |p|
    requires !BarIn(x, lo, |x|) && !BarIn(q, 0, |q| - edge)
    ensures x == y && q == p
  {
    var s, t := x + "|" + q, y + "|" + p;
    assert |s| == |x| + 1 + |q| == |y| + 1 + |p|;
    assert t[|y|] == '|';
    assert forall i :: 0 <= i < |x| ==> s[i] == x[i];
    assert forall i :: |x| < i < |s| ==> s[i] == q[i - |x| - 1];
    assert |x| == |y|;
    assert x == s[..|x|] && y == t[..|y|];
    assert q == s[|x| + 1..] && p == t[|y| + 1..];
  }

  lemma {:induction false} Untag(tag: string, x: string, q: string)
    ensures ((tag + x) + "|" + q)[|tag|..] == x + "|" + q
  {
  }

  lemma {:induction false} UnambiguousIsSafe(a: Request, edge: nat, b: Request)
    requires edge <= 1 && Identified(a, edge) && Identified(b, edge) && Unambiguous(a, edge) && KeysMeet(a, b)
    ensures a.query == b.query && ShareIdentity(a, b)
  {
    hide CapKeys, BarIn;
    var key :| key in CapKeys(a) && key in CapKeys(b);
    var tag, x := KeyShape(a, key);
    var tag', y := KeyShape(b, key);
    assert tag == tag' by {
      assert tag[0] == tag'[0];
      assert "ip:"[0] == 'i' && "session:"[0] == 's' && "user:"[0] == 'u';
    }
    Untag(tag, x, a.query);
    Untag(tag, y, b.query);
    SplitUnique(x, a.query, y, b.query, if tag == "user:" then 1 else edge, edge);
  }

  lemma {:induction false} OwnKeys(r: Request)
    ensures ContributionKey("ip:" + r.ip, r.query) in CapKeys(r)
    ensures ContributionKey("session:" + r.session, r.query) in CapKeys(r)
    ensures r.user.Some? && r.user.value != "" ==> ContributionKey("user:" + r.user.value, r.query) in CapKeys(r)
  {
    var keys := IdentityKeys(r);
    assert keys[0] == "ip:" + r.ip && keys[1] == "session:" + r.session;
    assert r.user.Some? && r.user.value != "" ==> keys[2] == "user:" + r.user.value;
  }

  /** A bar inside an id or a query can be read as the separator: another query is left after it. */
  lemma {:induction false} Resplit(tag: string, x: string, q: string, i: nat)
    ensures i < |x| && x[i] == '|' ==>
      ContributionKey(tag + x, q) == ContributionKey(tag + x[..i], x[i + 1..] + "|" + q)
    ensures i < |q| && q[i] == '|' ==>
      ContributionKey(tag + x, q) == ContributionKey(tag + (x + "|" + q[..i]), q[i + 1..])
  {
    if i < |x| && x[i] == '|' {
      assert x == x[..i] + "|" + x[i + 1..];
      assert ContributionKey(tag + x, q) == tag + x[..i] + "|" + x[i + 1..] + "|" + q;
    }
    if i < |q| && q[i] == '|' {
      assert q == q[..i] + "|" + q[i + 1..];
      assert ContributionKey(tag + x, q) == tag + x + "|" + q[..i] + "|" + q[i + 1..];
    }
  }

  /** The request that a bar inside `a` lets in. */
  lemma {:induction false} Impostor(a: Request, edge: nat) returns (b: Request)
    requires edge <= 1 && Identified(a, edge) && !Unambiguous(a, edge)
    ensures Identified(b, edge) && KeysMeet(a, b) && a.query != b.query
  {
    hide CapKeys, ContributionKey;
    OwnKeys(a);
    if BarIn(a.ip, edge, |a.ip|) {
      var i :| edge <= i < |a.ip| && a.ip[i] == '|';
      Resplit("ip:", a.ip, a.query, i);
      b := Request(a.ip[..i], "s", None, a.ip[i + 1..] + "|" + a.query, a.now);
    } else if BarIn(a.session, edge, |a.session|) {
      var i :| edge <= i < |a.session| && a.session[i] == '|';
      Resplit("session:", a.session, a.query, i);
      b := Request("a", a.session[..i], None, a.session[i + 1..] + "|" + a.query, a.now);
    } else if a.user.Some? && BarIn(a.user.value, 1, |a.user.value|) {
      var user := a.user.value;
      var i :| 1 <= i < |user| && user[i] == '|';
      Resplit("user:", user, a.query, i);
      b := Request("a", "s", Some(user[..i]), user[i + 1..] + "|" + a.query, a.now);
    } else {
      var i :| 0 <= i < |a.query| - edge && a.query[i] == '|';
      Resplit("ip:", a.ip, a.query, i);
      b := Request(a.ip + "|" + a.query[..i], "s", None, a.query[i + 1..], a.now);
    }
    OwnKeys(b);
  }

  lemma {:induction false} KeysSafeFrom(a: Request, edge: nat)
    requires edge <= 1 && Identified(a, edge)
    ensures KeysSafe(a, edge) <==> Unambiguous(a, edge)
  {
    hide KeysMeet, ShareIdentity, Unambiguous, Identified;
    if Unambiguous(a, edge) {
      forall b | Identified(b, edge) && KeysMeet(a, b) ensures a.query == b.query && ShareIdentity(a, b) {
        UnambiguousIsSafe(a, edge, b);
      }
    } else {
      var b := Impostor(a, edge);
      assert Identified(b, edge) && KeysMeet(a, b) && a.query != b.query;
    }
  }

  /**
   A request's keys are its own, whatever other request comes, if and only if its ip, session and query
   have no bar and its user id has none after its first character.
   */
  lemma {:induction false} KeysSafeExact(a: Request)
    ensures (forall b :: KeysMeet(a, b) ==> a.query == b.query && ShareIdentity(a, b))
            <==> '|' !in a.ip && '|' !in a.session && '|' !in a.query
                 && (a.user.Some? && a.user.value != "" ==> '|' !in a.user.value[1..])
  {
    hide KeysMeet, ShareIdentity;
    KeysSafeFrom(a, 0);
    if a.user.Some? && a.user.value != "" {
      var user := a.user.value;
      assert forall i :: 1 <= i < |user| ==> user[i] == user[1..][i - 1];
    }
  }

  /** Among requests with identifiers and a query, the only ones that reach the cap, outermost bars are harmless. */
  lemma {:induction false} CapKeysSafeExact(a: Request)
    requires a.ip != "" && a.session != "" && a.query != ""
    ensures (forall b: Request :: b.ip != "" && b.session != "" && b.query != "" && KeysMeet(a, b)
               ==> a.query == b.query && ShareIdentity(a, b))
            <==> '|' !in a.ip[1..] && '|' !in a.session[1..] && '|' !in a.query[..|a.query| - 1]
                 && (a.user.Some? && a.user.value != "" ==> '|' !in a.user.value[1..])
  {
    hide KeysMeet, ShareIdentity;
    KeysSafeFrom(a, 1);
    BarInside(a.ip);
    BarInside(a.session);
    BarInside(a.query);
    if a.user.Some? && a.user.value != "" { BarInside(a.user.value); }
  }

  lemma {:induction false} BarInside(s: string)
    requires s != ""
    ensures BarIn(s, 1, |s|) <==> '|' in s[1..]
    ensures BarIn(s, 0, |s| - 1) <==> '|' in s[..|s| - 1]
  {
    assert forall i :: 1 <= i < |s| ==> s[i] == s[1..][i - 1];
    assert forall i :: 0 <= i < |s| - 1 ==> s[i] == s[..|s| - 1][i];
  }

  /** An instance: two strangers with different queries block each other. */
  lemma {:induction false} BarsCollide()
    ensures var a := Request("x|y", "s", None, "z", 0);
      var b := Request("x", "t", None, "y|z", 0);
      KeysMeet(a, b) && a.query != b.query && !ShareIdentity(a, b)
  {
    var a := Request("x|y", "s", None, "z", 0);
    var b := Request("x", "t", None, "y|z", 0);
    assert IdentityKeys(a)[0] == "ip:x|y" && IdentityKeys(b)[0] == "ip:x";
    assert ContributionKey("ip:x|y", "z") == "ip:x|y|z" == ContributionKey("ip:x", "y|z");
    assert "ip:x|y|z" in CapKeys(a) && "ip:x|y|z" in CapKeys(b);
    assert a.query[0] != b.query[0];
    assert |a.ip| != |b.ip|;
    assert a.session[0] != b.session[0];
  }
}
