/** Login sessions and the websockets that keep them alive. The authentication manager keeps a
    dictionary of sessions and the HTTP server a list of registered websockets; between them they
    must make a session last exactly as long as it was granted for, counted from the login or from
    the moment its last websocket went away. */
module AuthSessions {
  import opened Wrappers

  type Token = string
  type User = string

  datatype Session = Session(user: User, expireReq: nat, expireTs: nat, wsStarted: int)

  /** A registered websocket; the number tells apart two connections with one token. */
  datatype Ws = Ws(id: nat, token: Token)

  /** The global limit in seconds, 0 for none, and whether websockets extend sessions. */
  datatype Config = Config(expire: nat, extend: bool)

  datatype State = State(sessions: map<Token, Session>, wss: seq<Ws>)

  /** What happens to the pair, one event for each stretch of code without a suspension. */
  datatype Event =
    | Login(user: User, req: nat, token: Token, now: nat)
    | Logout(token: Token)
    | Check(token: Token, now: nat)
    | Open(ws: Ws, now: nat)
    | Close(ws: Ws, now: nat)

  // ----- Reference: what a history entitles a token to -----

  /** The time a session may stay without a websocket: the smaller of the two limits that are set,
      0 for ever. */
  function Limit(c: Config, req: nat): nat {
    if req == 0 || (0 < c.expire < req) then c.expire else req
  }

  /** The websockets opened and not closed since. */
  function Wss(log: seq<Event>): seq<Ws> {
    if log == [] then [] else WssAfter(Wss(log[..|log| - 1]), log[|log| - 1])
  }

  function WssAfter(wss: seq<Ws>, e: Event): seq<Ws> {
    if e.Open? then wss + [e.ws] else if e.Close? then Without(wss, e.ws) else wss
  }

  function Without(wss: seq<Ws>, ws: Ws): (r: seq<Ws>)
    ensures |r| <= |wss|
    ensures ws !in wss <==> r == wss
  {
    if wss == [] then [] else if wss[0] == ws then wss[1..] else [wss[0]] + Without(wss[1..], ws)
  }

  function Count(wss: seq<Ws>, t: Token): nat {
    if wss == [] then 0 else Count(wss[1..], t) + if wss[0].token == t then 1 else 0
  }

  datatype Grant = Grant(user: User, req: nat)

  /** To whom and for how long the token was handed out. */
  function GrantOf(log: seq<Event>, t: Token): Option<Grant> {
    if log == [] then None
    else
      var e := log[|log| - 1];
      if e.Login? && e.token == t then Some(Grant(e.user, e.req)) else GrantOf(log[..|log| - 1], t)
  }

  /** The websockets that keep the token's session from expiring. */
  function Held(c: Config, log: seq<Event>, t: Token): nat {
    if c.extend then Count(Wss(log), t) else 0
  }

  predicate Releases(c: Config, log: seq<Event>, e: Event, t: Token) {
    || (e.Login? && e.token == t)
    || (c.extend && e.Close? && e.ws.token == t && e.ws in Wss(log))
  }

  /** When the token was issued or a websocket with it last went away. */
  function Since(c: Config, log: seq<Event>, t: Token): nat {
    if log == [] then 0
    else
      var e := log[|log| - 1];
      var before := log[..|log| - 1];
      if Releases(c, before, e, t) then e.now else Since(c, before, t)
  }

  predicate Expired(c: Config, log: seq<Event>, t: Token, now: nat) {
    match GrantOf(log, t)
    case None => false
    case Some(g) => Held(c, log, t) == 0 && 0 < Limit(c, g.req) && Since(c, log, t) + Limit(c, g.req) <= now
  }

  predicate SameUser(log: seq<Event>, t: Token, u: Token) {
    match (GrantOf(log, t), GrantOf(log, u))
    case (Some(g), Some(h)) => g.user == h.user
    case _ => false
  }

  /** A logout with a live token ends every session of its user; a check ends an expired one. */
  predicate Ends(c: Config, log: seq<Event>, e: Event, t: Token)
    decreases |log|, 1
  {
    || (e.Logout? && Live(c, log, e.token) && SameUser(log, t, e.token))
    || (e.Check? && e.token == t && Expired(c, log, t, e.now))
  }

  /** Issued, and not ended since. */
  predicate Live(c: Config, log: seq<Event>, t: Token)
    decreases |log|, 0
  {
    if log == [] then false
    else
      var e, before := log[|log| - 1], log[..|log| - 1];
      (e.Login? && e.token == t) || (Live(c, before, t) && !Ends(c, before, e, t))
  }

  predicate Mentions(e: Event, t: Token) {
    (e.Login? && e.token == t) || (e.Open? && e.ws.token == t)
  }

  predicate Used(log: seq<Event>, t: Token) {
    exists e :: e in log && Mentions(e, t)
  }

  /** Tokens are never reused, and every connection is a new one. */
  predicate Fresh(log: seq<Event>, e: Event) {
    match e
    case Login(_, _, t, _) => !Used(log, t)
    case Open(ws, _) => ws !in Wss(log)
    case _ => true
  }

  predicate History(log: seq<Event>) {
    log == [] || (History(log[..|log| - 1]) && Fresh(log[..|log| - 1], log[|log| - 1]))
  }

  /** The answer the history entitles a check to. */
  function Entitled(c: Config, log: seq<Event>, t: Token, now: nat): Option<User> {
    if Live(c, log, t) && !Expired(c, log, t, now) && GrantOf(log, t).Some? then Some(GrantOf(log, t).value.user)
    else None
  }

  // ----- The code's steps -----

  function MakeExpireTs(c: Config, req: nat, now: nat): (ts: nat)
    ensures ts == (if Limit(c, req) == 0 then 0 else now + Limit(c, req))
  {
    var expire := if req == 0 then c.expire else if c.expire > 0 then Min(req, c.expire) else req;
    if expire > 0 then now + expire else 0
  }

  function Min(a: nat, b: nat): nat { if a < b then a else b }

  function Renewed(c: Config, s: Session, start: bool, now: nat): Session {
    var ws := s.wsStarted + if start then 1 else -1;
    Session(s.user, s.expireReq, if ws <= 0 then MakeExpireTs(c, s.expireReq, now) else 0, ws)
  }

  function RenewStep(c: Config, sessions: map<Token, Session>, t: Token, start: bool, now: nat): map<Token, Session> {
    if c.extend && t in sessions then sessions[t := Renewed(c, sessions[t], start, now)] else sessions
  }

  function LogoutStep(sessions: map<Token, Session>, t: Token): map<Token, Session> {
    if t !in sessions then sessions
    else map u | u in sessions && sessions[u].user != sessions[t].user :: sessions[u]
  }

  function CheckStep(sessions: map<Token, Session>, t: Token, now: nat): (map<Token, Session>, Option<User>) {
    if t !in sessions then (sessions, None)
    else if sessions[t].expireTs <= 0 || now < sessions[t].expireTs then (sessions, Some(sessions[t].user))
    else (sessions - {t}, None)
  }

  function CloseStep(c: Config, s: State, ws: Ws, now: nat): State {
    if ws in s.wss then State(RenewStep(c, s.sessions, ws.token, false, now), Without(s.wss, ws)) else s
  }

  function Step(c: Config, s: State, e: Event): State {
    match e
    case Login(user, req, t, now) => s.(sessions := s.sessions[t := Session(user, req, MakeExpireTs(c, req, now), 0)])
    case Logout(t) => s.(sessions := LogoutStep(s.sessions, t))
    case Check(t, now) => s.(sessions := CheckStep(s.sessions, t, now).0)
    case Open(ws, now) => State(RenewStep(c, s.sessions, ws.token, true, now), s.wss + [ws])
    case Close(ws, now) => CloseStep(c, s, ws, now)
  }

  function Steps(c: Config, s: State, es: seq<Event>): State {
    if es == [] then s else Step(c, Steps(c, s, es[..|es| - 1]), es[|es| - 1])
  }

  /** A whole run, from the start of the server. */
  function RunOf(c: Config, log: seq<Event>): State {
    Steps(c, State(map[], []), log)
  }

  // ----- The state follows the history -----

  function SessionOf(c: Config, log: seq<Event>, t: Token): Session
    requires GrantOf(log, t).Some?
  {
    var g := GrantOf(log, t).value;
    var held := Held(c, log, t);
    Session(g.user, g.req, if held > 0 then 0 else MakeExpireTs(c, g.req, Since(c, log, t)), held)
  }

  /** One token's entry is what the history says. */
  predicate Follows(c: Config, sessions: map<Token, Session>, log: seq<Event>, t: Token) {
    && (t in sessions <==> Live(c, log, t))
    && (t in sessions ==> GrantOf(log, t).Some? && sessions[t] == SessionOf(c, log, t))
  }

  ghost predicate Agrees(c: Config, s: State, log: seq<Event>) {
    && s.wss == Wss(log)
    && forall t :: Follows(c, s.sessions, log, t)
  }

  lemma {:induction false} CountSnoc(wss: seq<Ws>, ws: Ws, t: Token)
    ensures Count(wss + [ws], t) == Count(wss, t) + if ws.token == t then 1 else 0
  {
    if wss == [] {
      assert [ws][1..] == [];
    } else {
      assert (wss + [ws])[1..] == wss[1..] + [ws];
      CountSnoc(wss[1..], ws, t);
    }
  }

  lemma {:induction false} CountWithout(wss: seq<Ws>, ws: Ws, t: Token)
    requires ws in wss
    ensures Count(wss, t) == Count(Without(wss, ws), t) + if ws.token == t then 1 else 0
  {
    if wss[0] != ws {
      CountWithout(wss[1..], ws, t);
      var r := Without(wss[1..], ws);
      assert ([wss[0]] + r)[1..] == r;
    }
  }

  lemma {:induction false} CountMembers(wss: seq<Ws>, t: Token)
    ensures Count(wss, t) > 0 <==> exists ws :: ws in wss && ws.token == t
  {
    if wss != [] {
      CountMembers(wss[1..], t);
      assert wss == [wss[0]] + wss[1..];
    }
  }

  lemma Snoc(c: Config, log: seq<Event>, e: Event, t: Token)
    ensures Wss(log + [e]) == WssAfter(Wss(log), e)
    ensures GrantOf(log + [e], t) == if e.Login? && e.token == t then Some(Grant(e.user, e.req)) else GrantOf(log, t)
    ensures Since(c, log + [e], t) == if Releases(c, log, e, t) then e.now else Since(c, log, t)
    ensures Live(c, log + [e], t) <==> (e.Login? && e.token == t) || (Live(c, log, t) && !Ends(c, log, e, t))
  {
    assert (log + [e])[..|log|] == log;
  }

  lemma {:induction false} UnusedIsUncounted(log: seq<Event>, t: Token)
    requires !Used(log, t)
    ensures Count(Wss(log), t) == 0 && GrantOf(log, t).None?
  {
    if log != [] {
      var e, before := log[|log| - 1], log[..|log| - 1];
      assert forall x :: x in before ==> x in log;
      assert !Mentions(e, t);
      UnusedIsUncounted(before, t);
      match e
      case Open(ws, _) => CountSnoc(Wss(before), ws, t);
      case Close(ws, _) => if ws in Wss(before) { CountWithout(Wss(before), ws, t); }
      case _ =>
    }
  }

  lemma LoginFollows(c: Config, s: State, log: seq<Event>, e: Event, t: Token)
    requires e.Login? && Fresh(log, e) && Agrees(c, s, log)
    ensures Follows(c, Step(c, s, e).sessions, log + [e], t)
  {
    assert Follows(c, s.sessions, log, t);
    Snoc(c, log, e, t);
    UnusedIsUncounted(log, e.token);
  }

  lemma LogoutFollows(c: Config, s: State, log: seq<Event>, e: Event, t: Token)
    requires e.Logout? && Agrees(c, s, log)
    ensures Follows(c, Step(c, s, e).sessions, log + [e], t)
  {
    assert Follows(c, s.sessions, log, t) && Follows(c, s.sessions, log, e.token);
    Snoc(c, log, e, t);
  }

  lemma CheckFollows(c: Config, s: State, log: seq<Event>, e: Event, t: Token)
    requires e.Check? && Agrees(c, s, log)
    ensures Follows(c, Step(c, s, e).sessions, log + [e], t)
    ensures CheckStep(s.sessions, e.token, e.now).1 == Entitled(c, log, e.token, e.now)
  {
    assert Follows(c, s.sessions, log, t) && Follows(c, s.sessions, log, e.token);
    Snoc(c, log, e, t);
  }

  lemma OpenFollows(c: Config, s: State, log: seq<Event>, e: Event, t: Token)
    requires e.Open? && Agrees(c, s, log)
    ensures Follows(c, Step(c, s, e).sessions, log + [e], t)
  {
    assert Follows(c, s.sessions, log, t);
    Snoc(c, log, e, t);
    CountSnoc(Wss(log), e.ws, t);
  }

  lemma CloseFollows(c: Config, s: State, log: seq<Event>, e: Event, t: Token)
    requires e.Close? && Agrees(c, s, log)
    ensures Follows(c, Step(c, s, e).sessions, log + [e], t)
  {
    assert Follows(c, s.sessions, log, t);
    Snoc(c, log, e, t);
    if e.ws in Wss(log) { CountWithout(Wss(log), e.ws, t); }
  }

  lemma StepFollows(c: Config, s: State, log: seq<Event>, e: Event, t: Token)
    requires Fresh(log, e) && Agrees(c, s, log)
    ensures Follows(c, Step(c, s, e).sessions, log + [e], t)
  {
    match e
    case Login(_, _, _, _) => LoginFollows(c, s, log, e, t);
    case Logout(_) => LogoutFollows(c, s, log, e, t);
    case Check(_, _) => CheckFollows(c, s, log, e, t);
    case Open(_, _) => OpenFollows(c, s, log, e, t);
    case Close(_, _) => CloseFollows(c, s, log, e, t);
  }

  /** Every step keeps the dictionary and the list in agreement with the history. */
  lemma StepKeepsAgreement(c: Config, s: State, log: seq<Event>, e: Event)
    requires Fresh(log, e) && Agrees(c, s, log)
    ensures Agrees(c, Step(c, s, e), log + [e])
  {
    forall t ensures Follows(c, Step(c, s, e).sessions, log + [e], t) {
      StepFollows(c, s, log, e, t);
    }
    Snoc(c, log, e, "");
  }

  /** Over every history the sessions are exactly the live tokens, each with the user it was issued
      to, the number of its registered websockets, and the deadline that follows from its last
      release. */
  lemma {:induction false} EveryHistory(c: Config, log: seq<Event>)
    requires History(log)
    ensures Agrees(c, RunOf(c, log), log)
  {
    if log != [] {
      var before, e := log[..|log| - 1], log[|log| - 1];
      EveryHistory(c, before);
      StepKeepsAgreement(c, RunOf(c, before), before, e);
      assert before + [e] == log;
    }
  }

  // ----- Which websockets are registered -----

  /** Just the first entry equal to `ws` is taken out, and the others keep their order. */
  lemma {:induction false} WithoutTakesOut(wss: seq<Ws>, ws: Ws)
    requires ws in wss
    ensures exists i :: 0 <= i < |wss| && wss[i] == ws && ws !in wss[..i] && Without(wss, ws) == wss[..i] + wss[i + 1..]
    ensures multiset(Without(wss, ws)) == multiset(wss) - multiset{ws}
  {
    var i := FirstIndex(wss, ws);
    assert wss == wss[..i] + [ws] + wss[i + 1..];
    assert multiset(wss) == multiset(wss[..i]) + multiset{ws} + multiset(wss[i + 1..]);
  }

  lemma {:induction false} FirstIndex(wss: seq<Ws>, ws: Ws) returns (i: nat)
    requires ws in wss
    ensures i < |wss| && wss[i] == ws && ws !in wss[..i] && Without(wss, ws) == wss[..i] + wss[i + 1..]
  {
    if wss[0] == ws {
      i := 0;
      assert wss[..0] == [] && wss[..0] + wss[1..] == wss[1..];
    } else {
      var j := FirstIndex(wss[1..], ws);
      i := j + 1;
      assert wss[..i] == [wss[0]] + wss[1..][..j];
      assert wss[1..][j + 1..] == wss[i + 1..];
    }
  }

  /** The last that the history says of the connection is that it was opened. */
  predicate IsOpen(log: seq<Event>, ws: Ws) {
    if log == [] then false
    else
      var e := log[|log| - 1];
      if e.Open? && e.ws == ws then true
      else if e.Close? && e.ws == ws then false
      else IsOpen(log[..|log| - 1], ws)
  }

  /** Over every history a connection is registered, and then once, if and only if it has been opened
      and not closed since. */
  lemma {:induction false} RegisteredIffOpen(log: seq<Event>, ws: Ws)
    requires History(log)
    ensures multiset(Wss(log))[ws] == if IsOpen(log, ws) then 1 else 0
  {
    if log != [] {
      var before, e := log[..|log| - 1], log[|log| - 1];
      RegisteredIffOpen(before, ws);
      match e
      case Open(w, _) => if w == ws { assert ws !in Wss(before); }
      case Close(w, _) => if w in Wss(before) { WithoutTakesOut(Wss(before), w); }
      case _ =>
    }
  }

  /** And so it is at the server, whatever else has happened. */
  lemma ServerKnowsWhoIsThere(c: Config, log: seq<Event>, ws: Ws)
    requires History(log)
    ensures ws in RunOf(c, log).wss <==> IsOpen(log, ws)
    ensures multiset(RunOf(c, log).wss)[ws] <= 1
  {
    EveryHistory(c, log);
    RegisteredIffOpen(log, ws);
    assert ws in Wss(log) <==> multiset(Wss(log))[ws] > 0;
  }

  // ----- What that means for a client -----

  /** A check answers what the history entitles the token to, at any moment of any history. */
  lemma CheckAnswersTheHistory(c: Config, log: seq<Event>, t: Token, now: nat)
    requires History(log)
    ensures CheckStep(RunOf(c, log).sessions, t, now).1 == Entitled(c, log, t, now)
  {
    EveryHistory(c, log);
    CheckFollows(c, RunOf(c, log), log, Check(t, now), t);
  }

  /** With extending on, a session's counter is the number of registered websockets with its token,
      and while there is one the session does not expire. */
  lemma HeldSessionsDoNotExpire(c: Config, log: seq<Event>, t: Token, now: nat)
    requires History(log) && c.extend && t in RunOf(c, log).sessions
    ensures RunOf(c, log).sessions[t].wsStarted == Count(RunOf(c, log).wss, t)
    ensures (exists ws :: ws in RunOf(c, log).wss && ws.token == t) ==>
      CheckStep(RunOf(c, log).sessions, t, now) == (RunOf(c, log).sessions, Some(RunOf(c, log).sessions[t].user))
  {
    EveryHistory(c, log);
    assert Follows(c, RunOf(c, log).sessions, log, t);
    CountMembers(Wss(log), t);
  }

  /** Without a websocket a session is accepted exactly until its limit has passed since the login
      or the last close. */
  lemma ReleasedSessionsExpire(c: Config, log: seq<Event>, t: Token, now: nat)
    requires History(log) && t in RunOf(c, log).sessions
    requires c.extend ==> forall ws :: ws in RunOf(c, log).wss ==> ws.token != t
    ensures var req := RunOf(c, log).sessions[t].expireReq;
      CheckStep(RunOf(c, log).sessions, t, now).1.Some?
      <==> (req > 0 ==> now < Since(c, log, t) + req) && (c.expire > 0 ==> now < Since(c, log, t) + c.expire)
  {
    EveryHistory(c, log);
    assert Follows(c, RunOf(c, log).sessions, log, t);
    CountMembers(Wss(log), t);
    CheckAnswersTheHistory(c, log, t, now);
  }

  /** A logout removes the sessions of the token's user, all of them, and touches no other. */
  lemma LogoutIsExact(c: Config, log: seq<Event>, t: Token, u: Token)
    requires History(log) && Live(c, log, t) && Live(c, log, u)
    ensures var before, after := RunOf(c, log).sessions, RunOf(c, log + [Logout(t)]).sessions;
      && (u in after <==> !SameUser(log, t, u))
      && (u in after ==> u in before && after[u] == before[u])
  {
    EveryHistory(c, log);
    assert (log + [Logout(t)])[..|log|] == log;
    assert Follows(c, RunOf(c, log).sessions, log, t) && Follows(c, RunOf(c, log).sessions, log, u);
  }

  lemma {:induction false} GrantedIsUsed(log: seq<Event>, t: Token)
    requires GrantOf(log, t).Some?
    ensures Used(log, t)
  {
    if log != [] {
      var e, before := log[|log| - 1], log[..|log| - 1];
      if e.Login? && e.token == t {
        assert e in log && Mentions(e, t);
      } else {
        GrantedIsUsed(before, t);
        var x :| x in before && Mentions(x, t);
        assert x in log;
      }
    }
  }

  /** Whatever happens next, a token that has ended is never accepted again. */
  lemma {:induction false} EndedStaysEnded(c: Config, log: seq<Event>, more: seq<Event>, t: Token)
    requires History(log + more) && GrantOf(log, t).Some? && !Live(c, log, t)
    ensures !Live(c, log + more, t) && GrantOf(log + more, t).Some?
  {
    if more == [] {
      assert log + more == log;
    } else {
      var e, sofar := more[|more| - 1], log + more[..|more| - 1];
      assert (log + more)[..|log + more| - 1] == sofar;
      EndedStaysEnded(c, log, more[..|more| - 1], t);
      GrantedIsUsed(sofar, t);
    }
  }

  /** A client turned away once is turned away for good: no later websocket brings the token back. */
  lemma RejectedStaysRejected(c: Config, log: seq<Event>, t: Token, now: nat, more: seq<Event>, later: nat)
    requires GrantOf(log, t).Some? && History(log) && History(log + [Check(t, now)] + more)
    requires CheckStep(RunOf(c, log).sessions, t, now).1.None?
    ensures CheckStep(RunOf(c, log + [Check(t, now)] + more).sessions, t, later).1.None?
  {
    var next := log + [Check(t, now)];
    CheckAnswersTheHistory(c, log, t, now);
    Snoc(c, log, Check(t, now), t);
    EndedStaysEnded(c, next, more, t);
    CheckAnswersTheHistory(c, next + more, t, later);
  }

  // ----- The two classes -----

  /** `config.extend` stands for authorization being enabled with extending on. */
  class AuthManager {
    const config: Config
    var sessions: map<Token, Session>

    constructor (config: Config)
      ensures this.config == config && sessions == map[]
    {
      this.config := config;
      sessions := map[];
    }

    /** Ten draws of a random token; the first that names no session is taken. */
    method MakeNewToken(draws: seq<Token>) returns (r: Option<Token>)
      requires |draws| == 10
      ensures r.None? <==> forall t :: t in draws ==> t in sessions
      ensures r.Some? ==> exists i :: 0 <= i < 10 && r.value == draws[i] && draws[i] !in sessions
                                      && forall j :: 0 <= j < i ==> draws[j] in sessions
    {
      for i := 0 to 10
        invariant forall j :: 0 <= j < i ==> draws[j] in sessions
      {
        if draws[i] !in sessions {
          return Some(draws[i]);
        }
      }
      return None;
    }

    method Login(user: User, authorized: bool, req: nat, draws: seq<Token>,
            now: nat) returns (r: Result<Option<Token>, string>)
      requires |draws| == 10
      modifies this`sessions
      ensures !authorized ==> r == Ok(None)
      ensures r.Err? <==> authorized && forall t :: t in draws ==> t in old(sessions)
      ensures r.Ok? && r.value.Some? ==>
        && r.value.value in draws && r.value.value !in old(sessions)
        && sessions == old(sessions)[r.value.value := Session(user, req, MakeExpireTs(config, req, now), 0)]
      ensures r.Err? || r.value.None? ==> sessions == old(sessions)
    {
      if authorized {
        var token := MakeNewToken(draws);
        match token
        case None => return Err("Can't generate new unique token");
        case Some(t) =>
          sessions := sessions[t := Session(user, req, MakeExpireTs(config, req, now), 0)];
          return Ok(Some(t));
      }
      return Ok(None);
    }

    method Logout(token: Token)
      modifies this`sessions
      ensures sessions == LogoutStep(old(sessions), token)
    {
      if token in sessions {
        var user := sessions[token].user;
        var keys := sessions.Keys;
        while keys != {}
          invariant keys <= old(sessions).Keys
          invariant sessions.Keys <= old(sessions).Keys
          invariant forall u :: u in old(sessions) ==> (u in sessions <==> u in keys || old(sessions)[u].user != user)
          invariant forall u :: u in sessions ==> sessions[u] == old(sessions)[u]
        {
          var key :| key in keys;
          keys := keys - {key};
          if sessions[key].user == user {
            sessions := sessions - {key};
          }
        }
      }
    }

    method Check(token: Token, now: nat) returns (user: Option<User>)
      modifies this`sessions
      ensures (sessions, user) == CheckStep(old(sessions), token, now)
    {
      if token in sessions {
        var session := sessions[token];
        if session.expireTs <= 0 {
          return Some(session.user);
        } else if now < session.expireTs {
          return Some(session.user);
        } else {
          sessions := sessions - {token};
        }
      }
      return None;
    }

    method RenewWsSession(token: Token, start: bool, now: nat)
      modifies this`sessions
      ensures sessions == RenewStep(config, old(sessions), token, start, now)
    {
      if config.extend && token in sessions {
        var session := sessions[token];
        var wsStarted := session.wsStarted + if start then 1 else -1;
        var expireTs: nat := 0;
        if wsStarted <= 0 {
          expireTs := MakeExpireTs(config, session.expireReq, now);
        }
        sessions := sessions[token := Session(session.user, session.expireReq, expireTs, wsStarted)];
      }
    }
  }

  function Closes(wss: seq<Ws>, clock: seq<nat>): seq<Event>
    requires |clock| == |wss|
  {
    seq(|wss|, i requires 0 <= i < |wss| => Close(wss[i], clock[i]))
  }

  class HttpServer {
    const auth: AuthManager
    var wss: seq<Ws>

    constructor (auth: AuthManager)
      ensures this.auth == auth && wss == []
    {
      this.auth := auth;
      wss := [];
    }

    function View(): State
      reads this, auth
    {
      State(auth.sessions, wss)
    }

    method AddWs(ws: Ws, now: nat)
      modifies this`wss, auth`sessions
      ensures View() == Step(auth.config, old(View()), Open(ws, now))
    {
      wss := wss + [ws];
      auth.RenewWsSession(ws.token, true, now);
    }

    method RemoveWs(ws: Ws, now: nat)
      modifies this`wss, auth`sessions
      ensures View() == Step(auth.config, old(View()), Close(ws, now))
    {
      if ws in wss {
        wss := Without(wss, ws);
        auth.RenewWsSession(ws.token, false, now);
      }
    }

    /** Closing all is closing each, in the order of registration, and leaves none. */
    method CloseAll(clock: seq<nat>) returns (any: bool)
      requires |clock| == |wss|
      modifies this`wss, auth`sessions
      ensures View() == Steps(auth.config, old(View()), Closes(old(wss), clock))
      ensures wss == [] && any == (old(wss) != [])
    {
      var all := wss;
      ghost var es := Closes(all, clock);
      for i := 0 to |all|
        invariant wss == all[i..]
        invariant View() == Steps(auth.config, old(View()), es[..i])
      {
        assert es[..i + 1][..i] == es[..i];
        RemoveWs(all[i], clock[i]);
      }
      assert es[..|all|] == es;
      any := all != [];
    }
  }
}
