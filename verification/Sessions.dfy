/**
 Server-side sessions: issued with an idle and an absolute deadline, slid by use, revoked one by one or all at once.
 A session is stored under its token, standing for the token's hash.
 */
module Sessions {
  import opened AsciiText
  import opened Numbers
  import opened Wrappers
  import opened Base64Url

  const TOKEN_LENGTH := 43

  datatype Config = Config(idle: real, absolute: real)

  type User = nat

  datatype Session = Session(user: User, createdAt: real, expiresAt: real, lastSeenAt: real, idleExpiresAt: real,
                             revokedAt: Option<real>)

  datatype State = State(sessions: map<string, Session>, active: set<User>)

  predicate IsToken(token: string) {
    |token| == TOKEN_LENGTH && AllUrlSafe(token)
  }

  // ---------- Steps ----------

  function Issued(cfg: Config, user: User, now: real): Session {
    var expires := now + cfg.absolute;
    Session(user, now, expires, now, Min(now + cfg.idle, expires), None)
  }

  /** The session can still be used, as far as itself goes. */
  predicate Alive(e: Session, now: real) {
    e.revokedAt.None? && now < e.expiresAt && now < e.idleExpiresAt
  }

  predicate Accepts(s: State, token: Option<string>, now: real) {
    && token.Some? && IsToken(token.value) && token.value in s.sessions
    && Alive(s.sessions[token.value], now) && s.sessions[token.value].user in s.active
  }

  function Used(cfg: Config, e: Session, now: real): Session {
    e.(lastSeenAt := now, idleExpiresAt := Min(e.expiresAt, now + cfg.idle))
  }

  function Revoked(e: Session, now: real): Session {
    if e.revokedAt.None? then e.(revokedAt := Some(now)) else e
  }

  function AllRevoked(sessions: map<string, Session>, user: User, now: real): map<string, Session> {
    map t | t in sessions :: if sessions[t].user == user then Revoked(sessions[t], now) else sessions[t]
  }

  datatype Event =
    | Issue(token: string, user: User, at: real)
    | Verify(presented: Option<string>, at: real)
    | Revoke(presented: Option<string>, at: real)
    | RevokeAll(user: User, at: real)
    | Activate(user: User, isActive: bool, at: real)

  function Step(cfg: Config, s: State, e: Event): State {
    match e
    case Issue(token, user, at) =>
      if token in s.sessions then s else s.(sessions := s.sessions[token := Issued(cfg, user, at)])
    case Verify(token, at) =>
      if Accepts(s, token, at)
        then s.(sessions := s.sessions[token.value := Used(cfg, s.sessions[token.value], at)]) else s
    case Revoke(token, at) =>
      if token.Some? && IsToken(token.value) && token.value in s.sessions
      then s.(sessions := s.sessions[token.value := Revoked(s.sessions[token.value], at)]) else s
    case RevokeAll(user, at) => s.(sessions := AllRevoked(s.sessions, user, at))
    case Activate(user, isActive, at) => s.(active := if isActive then s.active + {user} else s.active - {user})
  }

  function After(cfg: Config, start: State, events: seq<Event>): State {
    if events == [] then start else Step(cfg, After(cfg, start, events[..|events| - 1]), events[|events| - 1])
  }

  ghost predicate Monotone(events: seq<Event>) {
    forall i, j :: 0 <= i < j < |events| ==> events[i].at <= events[j].at
  }

  const EMPTY := State(map[], {})

  // ---------- Deadlines ----------

  predicate SessionInv(cfg: Config, e: Session) {
    && e.idleExpiresAt == Min(e.expiresAt, e.lastSeenAt + cfg.idle) && e.expiresAt == e.createdAt + cfg.absolute
    && e.lastSeenAt < e.expiresAt
  }

  ghost predicate Inv(cfg: Config, s: State) {
    forall t :: t in s.sessions ==> SessionInv(cfg, s.sessions[t])
  }

  lemma StepKeepsInv(cfg: Config, s: State, e: Event)
    requires cfg.absolute > 0.0 && Inv(cfg, s)
    ensures Inv(cfg, Step(cfg, s, e))
  {
    hide IsToken;
  }

  /** The idle deadline never passes the absolute one, which never moves. */
  lemma {:induction false} DeadlinesAreOrdered(cfg: Config, start: State, events: seq<Event>)
    requires cfg.absolute > 0.0 && Inv(cfg, start)
    ensures Inv(cfg, After(cfg, start, events))
    ensures forall t :: t in start.sessions ==>
              && t in After(cfg, start, events).sessions
              && After(cfg, start, events).sessions[t].expiresAt == start.sessions[t].expiresAt
              && After(cfg, start, events).sessions[t].idleExpiresAt <= start.sessions[t].expiresAt
              && After(cfg, start, events).sessions[t].user == start.sessions[t].user
  {
    if events != [] {
      var rest := events[..|events| - 1];
      DeadlinesAreOrdered(cfg, start, rest);
      StepKeepsInv(cfg, After(cfg, start, rest), events[|events| - 1]);
      StepKeepsIdentity(cfg, After(cfg, start, rest), events[|events| - 1]);
      hide Step;
    }
  }

  lemma StepKeepsIdentity(cfg: Config, s: State, e: Event)
    ensures forall t :: t in s.sessions ==>
              && t in Step(cfg, s, e).sessions && Step(cfg, s, e).sessions[t].expiresAt == s.sessions[t].expiresAt
              && Step(cfg, s, e).sessions[t].user == s.sessions[t].user
  {
    hide IsToken;
  }

  // ---------- Dead sessions ----------

  lemma StepKeepsDead(cfg: Config, s: State, e: Event, token: string, now: real)
    requires token in s.sessions && !Alive(s.sessions[token], now) && now <= e.at
    ensures token in Step(cfg, s, e).sessions && !Alive(Step(cfg, s, e).sessions[token], e.at)
  {
    hide IsToken;
  }

  /** Once revoked or past a deadline, a session is refused for ever, even if its user is activated again. */
  lemma {:induction false} DeadStaysDead(cfg: Config, start: State, events: seq<Event>, token: string, now: real,
                                         later: real)
    requires token in start.sessions && !Alive(start.sessions[token], now)
    requires Monotone(events) && now <= later && forall i :: 0 <= i < |events| ==> now <= events[i].at <= later
    ensures token in After(cfg, start, events).sessions && !Alive(After(cfg, start, events).sessions[token], later)
    ensures !Accepts(After(cfg, start, events), Some(token), later)
  {
    if events != [] {
      var n := |events| - 1;
      DeadStaysDead(cfg, start, events[..n], token, now, events[n].at);
      StepKeepsDead(cfg, After(cfg, start, events[..n]), events[n], token, events[n].at);
      hide Step;
    }
  }

  /** After revoking all of a user's sessions, none that existed is ever accepted again; other users keep theirs. */
  lemma RevokeAllEndsThemAll(cfg: Config, s: State, user: User, at: real, events: seq<Event>, token: string,
                             later: real)
    requires token in s.sessions
    requires Monotone(events) && at <= later && forall i :: 0 <= i < |events| ==> at <= events[i].at <= later
    ensures s.sessions[token].user == user ==>
              !Accepts(After(cfg, Step(cfg, s, RevokeAll(user, at)), events), Some(token), later)
    ensures s.sessions[token].user != user ==> Step(cfg, s, RevokeAll(user, at)).sessions[token] == s.sessions[token]
  {
    if s.sessions[token].user == user {
      DeadStaysDead(cfg, Step(cfg, s, RevokeAll(user, at)), events, token, at, later);
    }
  }

  // ---------- Uses ----------

  /** When the token was issued and then accepted. */
  function Uses(cfg: Config, start: State, events: seq<Event>, token: string): seq<real> {
    if events == [] then []
    else
      var rest, e := events[..|events| - 1], events[|events| - 1];
      var s := After(cfg, start, rest);
      Uses(cfg, start, rest, token) +
      if IsUse(s, e, token) then [e.at] else []
  }

  /** Consecutive uses are less than the idle time apart, and all of them less than the absolute time from the first. */
  predicate Bounded(cfg: Config, uses: seq<real>) {
    && (forall k :: 0 <= k < |uses| - 1 ==> uses[k + 1] - uses[k] < cfg.idle)
    && (forall k :: 0 <= k < |uses| ==> uses[k] - uses[0] < cfg.absolute)
  }

  predicate UsesInv(cfg: Config, s: State, uses: seq<real>, token: string) {
    && (token in s.sessions <==> uses != []) && Bounded(cfg, uses)
    && (token in s.sessions ==>
        && SessionInv(cfg, s.sessions[token])
        && s.sessions[token].createdAt == uses[0] && s.sessions[token].lastSeenAt == uses[|uses| - 1])
  }

  lemma OneMoreUse(cfg: Config, uses: seq<real>, now: real)
    requires uses != [] && Bounded(cfg, uses) && now - uses[|uses| - 1] < cfg.idle && now - uses[0] < cfg.absolute
    ensures Bounded(cfg, uses + [now])
  {
    var more := uses + [now];
    assert forall k :: 0 <= k < |uses| ==> more[k] == uses[k];
  }

  /** The event issues the token or is an accepted use of it. */
  predicate IsUse(s: State, e: Event, token: string) {
    (e.Issue? && e.token == token && token !in s.sessions) ||
    (e.Verify? && e.presented == Some(token) && Accepts(s, e.presented, e.at))
  }

  lemma StepKeepsUses(cfg: Config, s: State, e: Event, uses: seq<real>, token: string)
    requires cfg.absolute > 0.0 && UsesInv(cfg, s, uses, token)
    ensures UsesInv(cfg, Step(cfg, s, e), if IsUse(s, e, token) then uses + [e.at] else uses, token)
  {
    if !IsUse(s, e, token) {
      hide *;
      OtherStepsKeepUses(cfg, s, e, uses, token);
    } else if e.Verify? {
      hide Step, UsesInv, Accepts;
      VerifyKeepsUses(cfg, s, token, e.at, uses);
    } else {
      hide Step, UsesInv, Accepts;
      IssueKeepsUses(cfg, s, token, e.user, e.at, uses);
    }
  }

  lemma VerifyKeepsUses(cfg: Config, s: State, token: string, at: real, uses: seq<real>)
    requires UsesInv(cfg, s, uses, token) && Accepts(s, Some(token), at)
    ensures UsesInv(cfg, Step(cfg, s, Verify(Some(token), at)), uses + [at], token)
  {
    hide IsToken;
    OneMoreUse(cfg, uses, at);
    hide Bounded;
  }

  lemma IssueKeepsUses(cfg: Config, s: State, token: string, user: User, at: real, uses: seq<real>)
    requires cfg.absolute > 0.0 && UsesInv(cfg, s, uses, token) && token !in s.sessions
    ensures UsesInv(cfg, Step(cfg, s, Issue(token, user, at)), uses + [at], token)
  {
    OnlyUse(cfg, at);
    hide Bounded;
    assert uses + [at] == [at];
  }

  lemma OtherStepsKeepUses(cfg: Config, s: State, e: Event, uses: seq<real>, token: string)
    requires UsesInv(cfg, s, uses, token) && !IsUse(s, e, token)
    ensures UsesInv(cfg, Step(cfg, s, e), uses, token)
  {
    hide IsToken, Bounded;
  }

  lemma OnlyUse(cfg: Config, now: real)
    requires cfg.absolute > 0.0
    ensures Bounded(cfg, [now])
  {
  }

  /** Accepted uses lie within the absolute time of the issue and less than the idle time apart, in every run. */
  lemma {:induction false} UsesAreBounded(cfg: Config, active: set<User>, events: seq<Event>, token: string)
    requires cfg.absolute > 0.0
    ensures Bounded(cfg, Uses(cfg, State(map[], active), events, token))
    ensures UsesInv(cfg, After(cfg, State(map[], active), events), Uses(cfg, State(map[], active), events, token),
                    token)
  {
    if events != [] {
      var rest, e := events[..|events| - 1], events[|events| - 1];
      UsesAreBounded(cfg, active, rest, token);
      StepKeepsUses(cfg, After(cfg, State(map[], active), rest), e, Uses(cfg, State(map[], active), rest, token),
                    token);
      hide Step, UsesInv, Bounded, Accepts;
      var uses := Uses(cfg, State(map[], active), rest, token);
      assert uses + [] == uses;
      UsesInvIsBounded(cfg, After(cfg, State(map[], active), events), Uses(cfg, State(map[], active), events, token),
                       token);
    }
  }

  lemma UsesInvIsBounded(cfg: Config, s: State, uses: seq<real>, token: string)
    requires UsesInv(cfg, s, uses, token)
    ensures Bounded(cfg, uses)
  {
  }

  // ---------- Acceptance, by what happened ----------

  predicate Issues(e: Event, token: string) {
    e.Issue? && e.token == token
  }

  /** The event ends a session of this token and user. */
  predicate Revokes(e: Event, token: string, user: User) {
    (e.Revoke? && e.presented == Some(token)) || (e.RevokeAll? && e.user == user)
  }

  /** Event `k` was the first to issue the token, for the session's user and at its creation. */
  predicate IsOrigin(events: seq<Event>, k: nat, token: string, e: Session)
    requires k < |events|
  {
    && Issues(events[k], token) && events[k].Issue? && e.user == events[k].user && e.createdAt == events[k].at
    && forall l :: 0 <= l < k ==> !Issues(events[l], token)
  }

  predicate UnrevokedSince(events: seq<Event>, k: nat, token: string, user: User)
    requires k < |events|
  {
    forall l :: k < l < |events| ==> !Revokes(events[l], token, user)
  }

  lemma StepKeepsOrigin(cfg: Config, s: State, e: Event, token: string)
    ensures token in Step(cfg, s, e).sessions <==> token in s.sessions || Issues(e, token)
    ensures token in s.sessions && IsToken(token) ==>
              var was, after := s.sessions[token], Step(cfg, s, e).sessions[token];
              && after.user == was.user && after.createdAt == was.createdAt
              && (after.revokedAt.None? <==> was.revokedAt.None? && !Revokes(e, token, was.user))
    ensures token !in s.sessions && Issues(e, token) ==>
              var after := Step(cfg, s, e).sessions[token];
              after.user == e.user && after.createdAt == e.at && after.revokedAt.None?
  {
    hide Alive;
  }

  lemma {:induction false} StoredExactlyWhenIssued(cfg: Config, events: seq<Event>, token: string)
    ensures token in After(cfg, EMPTY, events).sessions <==> exists k :: 0 <= k < |events| && Issues(events[k], token)
  {
    if events != [] {
      var n := |events| - 1;
      StoredExactlyWhenIssued(cfg, events[..n], token);
      StepKeepsOrigin(cfg, After(cfg, EMPTY, events[..n]), events[n], token);
      hide Step, Issues;
    }
  }

  /** A stored session is its first issuer's, and unrevoked exactly if nothing revoked it since. */
  lemma {:induction false} SessionsHaveOrigins(cfg: Config, events: seq<Event>, token: string)
    requires token in After(cfg, EMPTY, events).sessions && IsToken(token)
    ensures var e := After(cfg, EMPTY, events).sessions[token];
            exists k :: 0 <= k < |events| && IsOrigin(events, k, token, e) &&
                        (e.revokedAt.None? <==> UnrevokedSince(events, k, token, e.user))
  {
    var n := |events| - 1;
    var rest, last := events[..n], events[n];
    var s, e := After(cfg, EMPTY, rest), After(cfg, EMPTY, events).sessions[token];
    StepKeepsOrigin(cfg, s, last, token);
    StoredExactlyWhenIssued(cfg, rest, token);
    hide Step, IsToken, Revokes;
    if token in s.sessions {
      SessionsHaveOrigins(cfg, rest, token);
      var was := s.sessions[token];
      var k :| 0 <= k < n && IsOrigin(rest, k, token, was) &&
          (was.revokedAt.None? <==> UnrevokedSince(rest, k, token, was.user));
      assert IsOrigin(events, k, token, e);
      assert UnrevokedSince(events, k, token, e.user) <==>
             UnrevokedSince(rest, k, token, e.user) && !Revokes(last, token, e.user) by {
        OneMoreEvent(events, k, token, e.user);
      }
    } else {
      assert IsOrigin(events, n, token, e) && UnrevokedSince(events, n, token, e.user);
    }
  }

  lemma OneMoreEvent(events: seq<Event>, k: nat, token: string, user: User)
    requires k < |events| - 1
    ensures var n := |events| - 1;
            UnrevokedSince(events, k, token, user) <==>
              UnrevokedSince(events[..n], k, token, user) && !Revokes(events[n], token, user)
  {
    hide Revokes;
    var n := |events| - 1;
    if UnrevokedSince(events, k, token, user) {
      assert forall l :: k < l < n ==> events[..n][l] == events[l];
    }
  }

  /** What the latest event about the user's activity says; a user never activated is not active. */
  predicate IsActive(events: seq<Event>, user: User) {
    if events == [] then false
    else
      var last := events[|events| - 1];
      if last.Activate? && last.user == user then last.isActive else IsActive(events[..|events| - 1], user)
  }

  lemma {:induction false} ActiveUsers(cfg: Config, events: seq<Event>, user: User)
    ensures user in After(cfg, EMPTY, events).active <==> IsActive(events, user)
  {
    if events != [] {
      ActiveUsers(cfg, events[..|events| - 1], user);
      hide Accepts, IsToken, AllRevoked, Used;
    }
  }

  /** Event `k` issued the token first, nothing revoked it since, its user is active, and both deadlines are ahead. */
  predicate IsValid(cfg: Config, events: seq<Event>, k: nat, token: string, now: real)
    requires k < |events|
  {
    && Issues(events[k], token) && events[k].Issue? && (forall l :: 0 <= l < k ==> !Issues(events[l], token))
    && UnrevokedSince(events, k, token, events[k].user) && IsActive(events, events[k].user)
    && now < events[k].at + cfg.absolute
    && var uses := Uses(cfg, EMPTY, events, token); uses != [] && now < uses[|uses| - 1] + cfg.idle
  }

  /**
   In every run a token is accepted exactly if it is well-formed and was issued, neither it nor all of its user's
   sessions were revoked since, its user is active now, and neither the absolute time since its issue nor the idle time
   since its last accepted use has gone by.
   */
  lemma AcceptedExactly(cfg: Config, events: seq<Event>, token: string, now: real)
    requires cfg.absolute > 0.0
    ensures Accepts(After(cfg, EMPTY, events), Some(token), now) <==>
            |token| == 43 && AllUrlSafe(token) && exists k :: 0 <= k < |events| && IsValid(cfg, events, k, token, now)
  {
    var s := After(cfg, EMPTY, events);
    StoredExactlyWhenIssued(cfg, events, token);
    hide After, UnrevokedSince, AllUrlSafe, Issues, IsValid;
    if token in s.sessions && IsToken(token) {
      SessionsHaveOrigins(cfg, events, token);
      var e := s.sessions[token];
      var k :| 0 <= k < |events| && IsOrigin(events, k, token, e) &&
          (e.revokedAt.None? <==> UnrevokedSince(events, k, token, e.user));
      AcceptedWhenValid(cfg, events, k, token, now);
      OnlyTheOriginIsValid(cfg, events, k, token, now, e);
    } else {
      ValidIsIssued(cfg, events, token, now);
    }
  }

  lemma ValidIsIssued(cfg: Config, events: seq<Event>, token: string, now: real)
    ensures forall k :: 0 <= k < |events| && IsValid(cfg, events, k, token, now) ==> Issues(events[k], token)
  {
  }

  lemma OnlyTheOriginIsValid(cfg: Config, events: seq<Event>, k: nat, token: string, now: real, e: Session)
    requires k < |events| && IsOrigin(events, k, token, e)
    ensures forall j :: 0 <= j < |events| && IsValid(cfg, events, j, token, now) ==> j == k
  {
    hide Issues, UnrevokedSince, Uses, IsActive;
  }

  lemma AcceptedWhenValid(cfg: Config, events: seq<Event>, k: nat, token: string, now: real)
    requires cfg.absolute > 0.0 && token in After(cfg, EMPTY, events).sessions && IsToken(token) && k < |events|
    requires var e := After(cfg, EMPTY, events).sessions[token];
             IsOrigin(events, k, token, e) && (e.revokedAt.None? <==> UnrevokedSince(events, k, token, e.user))
    ensures Accepts(After(cfg, EMPTY, events), Some(token), now) <==> IsValid(cfg, events, k, token, now)
  {
    UsesAreBounded(cfg, {}, events, token);
    ActiveUsers(cfg, events, After(cfg, EMPTY, events).sessions[token].user);
    hide After, Uses, UnrevokedSince, IsActive, AllUrlSafe, Bounded, Issues;
  }

  /** And whoever is let in is the user that the token was issued to. */
  lemma {:induction false} TokensStayTheirUsers(cfg: Config, events: seq<Event>, token: string, now: real)
    requires Accepts(After(cfg, EMPTY, events), Some(token), now)
    ensures exists k :: 0 <= k < |events| && IsOrigin(events, k, token, After(cfg, EMPTY, events).sessions[token])
  {
    hide After;
    SessionsHaveOrigins(cfg, events, token);
  }

  // ---------- The program ----------

  class SessionManager {
    const cfg: Config
    var sessions: map<string, Session>
    var active: set<User>

    function Value(): State
      reads this
    {
      State(sessions, active)
    }

    constructor (cfg: Config)
      ensures this.cfg == cfg && Value() == EMPTY
    {
      this.cfg, sessions, active := cfg, map[], {};
    }

    /** The random bytes stand for a token that was never issued before. */
    method IssueSession(user: User, random: Bytes, now: real) returns (token: string, expiresAt: real)
      requires |random| == 32 && Encode(random) !in sessions
      modifies this
      ensures IsToken(token) && expiresAt == now + cfg.absolute && token !in old(sessions)
      ensures Value() == Step(cfg, old(Value()), Issue(token, user, now))
    {
      EncodedShape(random);
      token := Encode(random);
      expiresAt := now + cfg.absolute;
      var idleExpiresAt := Min(now + cfg.idle, expiresAt);
      sessions := sessions[token := Session(user, now, expiresAt, now, idleExpiresAt, None)];
    }

    method VerifyToken(token: Option<string>, now: real) returns (verified: Option<(User, real)>)
      modifies this
      ensures Value() == Step(cfg, old(Value()), Verify(token, now))
      ensures verified.Some? <==> Accepts(old(Value()), token, now)
      ensures verified.Some? ==> verified.value == (sessions[token.value].user, sessions[token.value].expiresAt)
    {
      if token.None? || !IsToken(token.value) || token.value !in sessions {
        return None;
      }
      var session := sessions[token.value];
      if session.revokedAt.Some? || session.user !in active || now >= session.expiresAt ||
        now >= session.idleExpiresAt {
        return None;
      }
      session := session.(lastSeenAt := now);
      session := session.(idleExpiresAt := Min(session.expiresAt, now + cfg.idle));
      sessions := sessions[token.value := session];
      verified := Some((session.user, session.expiresAt));
    }

    method RevokeToken(token: Option<string>, now: real) returns (revoked: bool)
      modifies this
      ensures Value() == Step(cfg, old(Value()), Revoke(token, now))
      ensures revoked <==> token.Some? && IsToken(token.value) && token.value in old(sessions) &&
                           old(sessions)[token.value].revokedAt.None?
    {
      if token.None? || !IsToken(token.value) {
        return false;
      }
      if token.value !in sessions || sessions[token.value].revokedAt.Some? {
        assert token.value in sessions ==> sessions[token.value := sessions[token.value]] == sessions;
        return false;
      }
      sessions := sessions[token.value := sessions[token.value].(revokedAt := Some(now))];
      revoked := true;
    }

    method RevokeAllOf(user: User, now: real) returns (changed: nat)
      modifies this
      ensures Value() == Step(cfg, old(Value()), RevokeAll(user, now))
      ensures changed == |set t | t in old(sessions) && old(sessions)[t].user == user &&
              old(sessions)[t].revokedAt.None?|
    {
      changed := |set t | t in sessions && sessions[t].user == user && sessions[t].revokedAt.None?|;
      sessions := map t | t in sessions ::
        if sessions[t].user == user && sessions[t].revokedAt.None?
        then sessions[t].(revokedAt := Some(now)) else sessions[t];
    }
  }
}
