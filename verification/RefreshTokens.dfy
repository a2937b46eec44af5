/**
 Refresh-token rotation (`src/auth/auth.service.ts`). Requests run one after another. A signed
 token is known by its subject, its random id and its expiry; its hash is the token itself.
 */
module RefreshTokens {

  /** Milliseconds of `7 * 24 * 60 * 60 * 1000`: how long a stored record lives. */
  const RECORD_LIFE := 604_800_000

  datatype Token = Token(sub: int, jti: nat, expires: int)

  /** What the cookie holds: nothing, a text this service never signed, or a signed token. */
  datatype Cookie = Missing | Unsigned | Signed(token: Token)

  datatype Record = Record(userId: int, expiresAt: int)

  /**
   `users` maps an id to whether its second factor is on. `issued` is every token ever signed,
   `nextJti` stands for randomness that never repeats, `jwtLife` for JWT_REFRESH_EXPIRES_IN,
   and `alarms` counts the stored REFRESH_TOKEN_REUSE_DETECTED audit entries of each user: they
   refer to the user, so none is stored for one who is gone, and they go with the user.
   */
  datatype State = State(users: map<int, bool>, records: map<Token, Record>, issued: set<Token>,
                         nextJti: nat, jwtLife: int, alarms: multiset<int>)
  {
    ghost predicate Valid() {
      && records.Keys <= issued
      && (forall t :: t in issued ==> t.jti < nextJti)
      && (forall t :: t in records ==> records[t].userId == t.sub && t.sub in users)
      && (forall u :: u in alarms ==> u in users)
    }
  }

  datatype Outcome = Issued(token: Token) | NeedsSecondFactor | Unauthorized | Done

  /** `SignIn` is password login, `SecondFactor` and `OAuth` are the other ways to be issued tokens. */
  datatype Event =
    | Register(user: int)
    | SetSecondFactor(user: int, on: bool)
    | SignIn(user: int)
    | SecondFactor(user: int, codeMatches: bool)
    | OAuth(user: int)
    | Refresh(cookie: Cookie)
    | Logout(user: int)
    | DeleteAccount(user: int)

  // ---- the requests, as functions of the state ----

  function WithoutUser(records: map<Token, Record>, user: int): map<Token, Record> {
    map t | t in records && records[t].userId != user :: records[t]
  }

  function WithAlarm(users: map<int, bool>, alarms: multiset<int>, user: int): multiset<int> {
    if user in users then alarms + multiset{user} else alarms
  }

  function IssueTokens(s: State, user: int, now: int): (State, Outcome) {
    var token := Token(user, s.nextJti, now + s.jwtLife);
    (s.(records := s.records[token := Record(user, now + RECORD_LIFE)],
        issued := s.issued + {token},
        nextJti := s.nextJti + 1),
     Issued(token))
  }

  function Rotate(s: State, cookie: Cookie, now: int): (State, Outcome) {
    if !cookie.Signed? || cookie.token !in s.issued || cookie.token.expires <= now then (s, Unauthorized)
    else
      var t := cookie.token;
      if t !in s.records then
        (s.(records := WithoutUser(s.records, t.sub), alarms := WithAlarm(s.users, s.alarms, t.sub)), Unauthorized)
      else if s.records[t].expiresAt < now then (s, Unauthorized)
      else if t.sub !in s.users then (s, Unauthorized)
      else IssueTokens(s.(records := s.records - {t}), t.sub, now)
  }

  function Apply(s: State, e: Event, now: int): (State, Outcome) {
    match e
    case Register(u) =>
      (if u in s.users then s else s.(users := s.users[u := false]), Done)
    case SetSecondFactor(u, on) =>
      (if u in s.users then s.(users := s.users[u := on]) else s, Done)
    case SignIn(u) =>
      if u !in s.users then (s, Unauthorized)
      else if s.users[u] then (s, NeedsSecondFactor)
      else IssueTokens(s, u, now)
    case SecondFactor(u, ok) =>
      if u !in s.users || !ok then (s, Unauthorized) else IssueTokens(s, u, now)
    case OAuth(u) =>
      IssueTokens(if u in s.users then s else s.(users := s.users[u := false]), u, now)
    case Refresh(cookie) => Rotate(s, cookie, now)
    case Logout(u) => (s.(records := WithoutUser(s.records, u)), Done)
    case DeleteAccount(u) =>
      (s.(records := WithoutUser(s.records, u), users := s.users - {u}, alarms := s.alarms[u := 0]), Done)
  }

  // ---- the service ----

  class AuthService {
    var users: map<int, bool>
    var records: map<Token, Record>
    var issued: set<Token>
    var nextJti: nat
    var alarms: multiset<int>
    const jwtLife: int

    constructor (jwtLife: int)
      ensures Current() == State(map[], map[], {}, 0, jwtLife, multiset{}) && Current().Valid()
    {
      users, records, issued, nextJti, alarms := map[], map[], {}, 0, multiset{};
      this.jwtLife := jwtLife;
    }

    ghost function Current(): State
      reads this
    {
      State(users, records, issued, nextJti, jwtLife, alarms)
    }

    method IssueTokensFor(user: int, now: int) returns (r: Outcome)
      modifies this
      ensures (Current(), r) == IssueTokens(old(Current()), user, now)
    {
      var token := Token(user, nextJti, now + jwtLife);
      issued := issued + {token};
      nextJti := nextJti + 1;
      records := records[token := Record(user, now + RECORD_LIFE)];
      r := Issued(token);
    }

    method DeleteUserRefreshTokens(user: int)
      modifies this`records
      ensures records == WithoutUser(old(records), user)
    {
      records := map t | t in records && records[t].userId != user :: records[t];
    }

    method Login(user: int, now: int) returns (r: Outcome)
      modifies this
      ensures (Current(), r) == Apply(old(Current()), SignIn(user), now)
    {
      if user !in users {
        return Unauthorized;
      }
      if users[user] {
        return NeedsSecondFactor;
      }
      r := IssueTokensFor(user, now);
    }

    method RefreshSession(cookie: Cookie, now: int) returns (r: Outcome)
      modifies this
      ensures (Current(), r) == Apply(old(Current()), Refresh(cookie), now)
    {
      if !cookie.Signed? || cookie.token !in issued || cookie.token.expires <= now {
        return Unauthorized;
      }
      var token := cookie.token;
      if token !in records {
        DeleteUserRefreshTokens(token.sub);
        alarms := WithAlarm(users, alarms, token.sub);
        return Unauthorized;
      }
      if records[token].expiresAt < now || token.sub !in users {
        return Unauthorized;
      }
      records := records - {token};
      r := IssueTokensFor(token.sub, now);
    }

    method LogoutUser(user: int) returns (r: Outcome)
      modifies this
      ensures forall now :: (Current(), r) == Apply(old(Current()), Logout(user), now)
    {
      DeleteUserRefreshTokens(user);
      r := Done;
    }

    method DeleteUser(user: int) returns (r: Outcome)
      modifies this
      ensures forall now :: (Current(), r) == Apply(old(Current()), DeleteAccount(user), now)
    {
      DeleteUserRefreshTokens(user);
      users := users - {user};
      alarms := alarms[user := 0];
      r := Done;
    }
  }

  // ---- one request ----

  lemma ApplyKeepsValid(s: State, e: Event, now: int)
    requires s.Valid()
    ensures Apply(s, e, now).0.Valid()
    ensures s.issued <= Apply(s, e, now).0.issued
  {
    match e {
      case SignIn(u) => if u in s.users { IssueKeepsValid(s, u, now); }
      case SecondFactor(u, _) => if u in s.users { IssueKeepsValid(s, u, now); }
      case OAuth(u) => IssueKeepsValid(if u in s.users then s else s.(users := s.users[u := false]), u, now);
      case Refresh(cookie) => RotateKeepsValid(s, cookie, now);
      case _ => {}
    }
  }

  lemma IssueKeepsValid(s: State, user: int, now: int)
    requires s.Valid() && user in s.users
    ensures IssueTokens(s, user, now).0.Valid()
    ensures s.issued <= IssueTokens(s, user, now).0.issued
  {
  }

  lemma RotateKeepsValid(s: State, cookie: Cookie, now: int)
    requires s.Valid()
    ensures Rotate(s, cookie, now).0.Valid()
    ensures s.issued <= Rotate(s, cookie, now).0.issued
  {
    if Rotate(s, cookie, now).1.Issued? {
      IssueKeepsValid(s.(records := s.records - {cookie.token}), cookie.token.sub, now);
    }
  }

  /** A refresh succeeds exactly for a live token within both lifetimes, whatever the cookie. */
  lemma RefreshSucceedsExactly(s: State, cookie: Cookie, now: int)
    requires s.Valid()
    ensures Rotate(s, cookie, now).1.Issued?
        <==> cookie.Signed? && cookie.token in s.records
             && now < cookie.token.expires && now <= s.records[cookie.token].expiresAt
  {
  }

  ghost function Live(s: State, user: int): set<Token> {
    set t | t in s.records && s.records[t].userId == user
  }

  /** A refresh that succeeds swaps the user's token for a new one and touches nobody else. */
  lemma RefreshRotates(s: State, cookie: Cookie, now: int)
    requires s.Valid()
    requires Rotate(s, cookie, now).1.Issued?
    ensures var (s', r) := Rotate(s, cookie, now);
      var user := cookie.token.sub;
      && r.token.sub == user && r.token !in s.issued
      && Live(s', user) == Live(s, user) - {cookie.token} + {r.token}
      && |Live(s', user)| == |Live(s, user)|
      && (forall other :: other != user ==> Live(s', other) == Live(s, other))
      && s'.alarms == s.alarms
  {
    var (s', r) := Rotate(s, cookie, now);
    var user := cookie.token.sub;
    assert cookie.token in Live(s, user);
    assert Live(s', user) == Live(s, user) - {cookie.token} + {r.token};
    assert r.token !in Live(s, user);
  }

  /** A refresh that fails does nothing, unless it replays: then that user, and only that user, loses every session. */
  lemma RefreshFails(s: State, cookie: Cookie, now: int)
    requires s.Valid()
    requires !Rotate(s, cookie, now).1.Issued?
    ensures var s' := Rotate(s, cookie, now).0;
      if cookie.Signed? && cookie.token in s.issued && now < cookie.token.expires && cookie.token !in s.records then
        && Live(s', cookie.token.sub) == {}
        && (forall other :: other != cookie.token.sub ==> Live(s', other) == Live(s, other))
        && s'.alarms == (if cookie.token.sub in s.users then s.alarms + multiset{cookie.token.sub} else s.alarms)
      else s' == s
  {
  }

  // ---- serial runs ----

  datatype Step = Step(event: Event, now: int)

  function Run(s: State, steps: seq<Step>): State
    decreases |steps|
  {
    if steps == [] then s
    else
      var last := steps[|steps| - 1];
      Apply(Run(s, steps[..|steps| - 1]), last.event, last.now).0
  }

  /** The answer to request i of the run. */
  function Answer(s: State, steps: seq<Step>, i: nat): Outcome
    requires i < |steps|
  {
    Apply(Run(s, steps[..i]), steps[i].event, steps[i].now).1
  }

  lemma {:induction false} RunKeepsValid(s: State, steps: seq<Step>)
    requires s.Valid()
    ensures Run(s, steps).Valid() && s.issued <= Run(s, steps).issued
  {
    if steps != [] {
      var front, last := steps[..|steps| - 1], steps[|steps| - 1];
      RunKeepsValid(s, front);
      ApplyKeepsValid(Run(s, front), last.event, last.now);
    }
  }

  lemma {:induction false} RunSplit(s: State, steps: seq<Step>, i: nat)
    requires i <= |steps|
    ensures Run(s, steps) == Run(Run(s, steps[..i]), steps[i..])
    decreases |steps|
  {
    hide Apply;
    if i == |steps| {
      assert steps[..i] == steps && steps[i..] == [];
    } else {
      var n := |steps| - 1;
      RunSplit(s, steps[..n], i);
      assert steps[..n][..i] == steps[..i];
      assert steps[..n][i..] == steps[i..][..n - i];
      assert steps[i..][|steps[i..]| - 1] == steps[n];
    }
  }

  /** Signed, and no longer on record: rotated away, logged out or revoked. */
  ghost predicate Spent(s: State, t: Token) {
    t in s.issued && t !in s.records
  }

  lemma {:induction false} SpentForever(s: State, steps: seq<Step>, t: Token)
    requires s.Valid() && Spent(s, t)
    ensures Spent(Run(s, steps), t)
  {
    if steps != [] {
      var front, last := steps[..|steps| - 1], steps[|steps| - 1];
      SpentForever(s, front, t);
      RunKeepsValid(s, front);
      SpentStays(Run(s, front), last.event, last.now, t);
    }
  }

  lemma SpentStays(s: State, e: Event, now: int, t: Token)
    requires s.Valid() && Spent(s, t)
    ensures Spent(Apply(s, e, now).0, t)
  {
  }

  /**
   Over any run each refresh token is accepted at most once. Shown again before it expires,
   it is taken for theft: the user's sessions are gone, everybody else's untouched.
   */
  lemma AcceptedAtMostOnce(s: State, steps: seq<Step>, i: nat, j: nat, t: Token)
    requires s.Valid() && i < j < |steps|
    requires steps[i].event == Refresh(Signed(t)) && Answer(s, steps, i).Issued?
    requires steps[j].event == Refresh(Signed(t))
    ensures Answer(s, steps, j) == Unauthorized
    ensures var before, after := Run(s, steps[..j]), Run(s, steps[..j + 1]);
      if steps[j].now < t.expires then
        && Live(after, t.sub) == {}
        && (forall other :: other != t.sub ==> Live(after, other) == Live(before, other))
      else after == before
  {
    hide Run, Apply, Rotate, Live;
    var atI, afterI, before := Run(s, steps[..i]), Run(s, steps[..i + 1]), Run(s, steps[..j]);
    RunKeepsValid(s, steps[..i]);
    RunKeepsValid(s, steps[..j]);
    RunStep(s, steps, i);
    RunStep(s, steps, j);
    AnswerToRefresh(s, steps, i, Signed(t));
    AnswerToRefresh(s, steps, j, Signed(t));
    AcceptedIsSpent(atI, t, steps[i].now);
    RunKeepsValid(s, steps[..i + 1]);
    RunSplit(s, steps[..j], i + 1);
    assert steps[..j][..i + 1] == steps[..i + 1];
    SpentForever(afterI, steps[..j][i + 1..], t);
    RefreshSucceedsExactly(before, Signed(t), steps[j].now);
    RefreshFails(before, Signed(t), steps[j].now);
    UnauthorizedUnlessIssued(before, Signed(t), steps[j].now);
  }

  lemma RunStep(s: State, steps: seq<Step>, i: nat)
    requires i < |steps|
    ensures Run(s, steps[..i + 1]) == Apply(Run(s, steps[..i]), steps[i].event, steps[i].now).0
  {
    assert steps[..i + 1][..i] == steps[..i];
  }

  lemma AnswerToRefresh(s: State, steps: seq<Step>, i: nat, cookie: Cookie)
    requires i < |steps| && steps[i].event == Refresh(cookie)
    ensures Answer(s, steps, i) == Rotate(Run(s, steps[..i]), cookie, steps[i].now).1
    ensures Apply(Run(s, steps[..i]), steps[i].event, steps[i].now) == Rotate(Run(s, steps[..i]), cookie, steps[i].now)
  {
  }

  lemma AcceptedIsSpent(s: State, t: Token, now: int)
    requires s.Valid() && Rotate(s, Signed(t), now).1.Issued?
    ensures Spent(Rotate(s, Signed(t), now).0, t)
  {
  }

  lemma UnauthorizedUnlessIssued(s: State, cookie: Cookie, now: int)
    ensures Rotate(s, cookie, now).1.Issued? || Rotate(s, cookie, now).1 == Unauthorized
  {
  }

  /**
   The request ends the session of `t`, whose record runs out at `expiresAt`: it shows `t` within
   both lifetimes, or logs out or deletes its user, or replays another token of that user.
   */
  ghost predicate Ends(s: State, step: Step, t: Token, expiresAt: int) {
    match step.event
    case Logout(u) => u == t.sub
    case DeleteAccount(u) => u == t.sub
    case Refresh(cookie) =>
      || (cookie == Signed(t) && step.now < t.expires && step.now <= expiresAt)
      || (cookie.Signed? && cookie.token != t && cookie.token.sub == t.sub
          && Spent(s, cookie.token) && step.now < cookie.token.expires)
    case _ => false
  }

  /** Request i of the run ends the session of `t`. */
  ghost predicate EndsAt(s: State, steps: seq<Step>, i: nat, t: Token)
    requires i < |steps| && t in s.records
  {
    Ends(Run(s, steps[..i]), steps[i], t, s.records[t].expiresAt)
  }

  /** A session outlives a run, its record unchanged, exactly when no request of the run ends it. */
  lemma {:induction false} SessionSurvives(s: State, steps: seq<Step>, t: Token)
    requires s.Valid() && t in s.records
    ensures t in Run(s, steps).records <==> forall i :: 0 <= i < |steps| ==> !EndsAt(s, steps, i, t)
    ensures t in Run(s, steps).records ==> Run(s, steps).records[t] == s.records[t]
  {
    hide Apply, Ends, EndsAt;
    if steps != [] {
      var n := |steps| - 1;
      var front, last := steps[..n], steps[n];
      var before := Run(s, front);
      SessionSurvives(s, front, t);
      RunKeepsValid(s, front);
      forall i | 0 <= i < n
        ensures EndsAt(s, front, i, t) == EndsAt(s, steps, i, t)
      {
        EndsEarlier(s, steps, n, i, t);
      }
      if t in before.records {
        EndsExactly(before, last, t);
        EndsLast(s, steps, t);
      } else {
        SpentStays(before, last.event, last.now, t);
      }
    }
  }

  lemma EndsEarlier(s: State, steps: seq<Step>, n: nat, i: nat, t: Token)
    requires i < n <= |steps| && t in s.records
    ensures EndsAt(s, steps[..n], i, t) == EndsAt(s, steps, i, t)
  {
    assert steps[..n][..i] == steps[..i];
  }

  lemma EndsLast(s: State, steps: seq<Step>, t: Token)
    requires steps != [] && t in s.records
    ensures var n := |steps| - 1;
      EndsAt(s, steps, n, t) == Ends(Run(s, steps[..n]), steps[n], t, s.records[t].expiresAt)
  {
  }

  lemma EndsExactly(s: State, step: Step, t: Token)
    requires s.Valid() && t in s.records
    ensures var records := Apply(s, step.event, step.now).0.records;
      && (t in records <==> !Ends(s, step, t, s.records[t].expiresAt))
      && (t in records ==> records[t] == s.records[t])
  {
  }

  /** Requests that were answered with a session other than by a refresh. */
  ghost function SignIns(s: State, steps: seq<Step>, user: int): nat {
    if steps == [] then 0
    else
      var n := |steps| - 1;
      SignIns(s, steps[..n], user) + if OpensSession(Run(s, steps[..n]), steps[n], user) then 1 else 0
  }

  ghost predicate OpensSession(s: State, step: Step, user: int) {
    var r := Apply(s, step.event, step.now).1;
    !step.event.Refresh? && r.Issued? && r.token.sub == user
  }

  ghost predicate Revokes(s: State, step: Step, user: int) {
    match step.event
    case Logout(u) => u == user
    case DeleteAccount(u) => u == user
    case Refresh(cookie) =>
      cookie.Signed? && cookie.token.sub == user && Spent(s, cookie.token) && step.now < cookie.token.expires
    case _ => false
  }

  lemma LiveAfter(s: State, step: Step, user: int)
    requires s.Valid()
    ensures var live, live' := Live(s, user), Live(Apply(s, step.event, step.now).0, user);
      |live'| == if Revokes(s, step, user) then 0 else if OpensSession(s, step, user) then |live| + 1 else |live|
  {
    if step.event.Refresh? {
      var cookie := step.event.cookie;
      hide Rotate, Live;
      if Rotate(s, cookie, step.now).1.Issued? {
        RefreshSucceedsExactly(s, cookie, step.now);
        RefreshRotates(s, cookie, step.now);
      } else {
        RefreshFails(s, cookie, step.now);
      }
    } else {
      LiveAfterOther(s, step, user);
    }
  }

  lemma LiveAfterOther(s: State, step: Step, user: int)
    requires s.Valid() && !step.event.Refresh?
    ensures var live, live' := Live(s, user), Live(Apply(s, step.event, step.now).0, user);
      |live'| == if Revokes(s, step, user) then 0 else if OpensSession(s, step, user) then |live| + 1 else |live|
  {
    match step.event {
      case SignIn(u) => LiveAfterIssue(s, u, step.now, user);
      case SecondFactor(u, _) => LiveAfterIssue(s, u, step.now, user);
      case OAuth(u) => LiveAfterIssue(if u in s.users then s else s.(users := s.users[u := false]), u, step.now, user);
      case Logout(u) => LiveAfterRevoking(s, u, user);
      case DeleteAccount(u) => LiveAfterRevoking(s, u, user);
      case _ => {}
    }
  }

  lemma LiveAfterIssue(s: State, u: int, now: int, user: int)
    requires forall t :: t in s.records ==> t.jti < s.nextJti
    ensures |Live(IssueTokens(s, u, now).0, user)| == |Live(s, user)| + if u == user then 1 else 0
  {
    var (s', r) := IssueTokens(s, u, now);
    var token := r.token;
    assert token !in s.records;
    assert s'.records == s.records[token := Record(u, now + RECORD_LIFE)];
    LiveAfterStoring(s, s', token, Record(u, now + RECORD_LIFE), user);
  }

  lemma LiveAfterStoring(s: State, s': State, token: Token, record: Record, user: int)
    requires token !in s.records && s'.records == s.records[token := record]
    ensures |Live(s', user)| == |Live(s, user)| + if record.userId == user then 1 else 0
  {
    var live, live' := Live(s, user), Live(s', user);
    if record.userId == user {
      assert live' == live + {token};
    } else {
      assert live' == live;
    }
  }

  lemma LiveAfterRevoking(s: State, u: int, user: int)
    ensures var without := s.(records := WithoutUser(s.records, u));
      Live(without, user) == if u == user then {} else Live(s, user)
  {
  }

  /** Sessions are conserved: a user never has more than were opened, and exactly those if none was revoked. */
  lemma {:induction false} SessionsConserved(s: State, steps: seq<Step>, user: int)
    requires s.Valid()
    ensures |Live(Run(s, steps), user)| <= |Live(s, user)| + SignIns(s, steps, user)
    ensures (forall i :: 0 <= i < |steps| ==> !Revokes(Run(s, steps[..i]), steps[i], user))
        ==> |Live(Run(s, steps), user)| == |Live(s, user)| + SignIns(s, steps, user)
  {
    if steps != [] {
      var n := |steps| - 1;
      var front := steps[..n];
      SessionsConserved(s, front, user);
      RunKeepsValid(s, front);
      LiveAfter(Run(s, front), steps[n], user);
      assert forall i :: 0 <= i < n ==> front[..i] == steps[..i] && front[i] == steps[i];
    }
  }

  /**
   The token handed out at `now` still opens a session after a run exactly when no request of the
   run ended it and neither of its two lifetimes is over: the signature's and the record's 7 days.
   */
  lemma IssuedTokenWorksUntil(s: State, user: int, now: int, steps: seq<Step>, later: int)
    requires s.Valid() && user in s.users
    ensures var (s', r) := IssueTokens(s, user, now);
      && s'.Valid() && r.Issued?
      && (Rotate(Run(s', steps), Signed(r.token), later).1.Issued?
          <==> (forall i :: 0 <= i < |steps| ==> !EndsAt(s', steps, i, r.token))
               && later < now + s.jwtLife && later <= now + RECORD_LIFE)
  {
    hide Run, Apply, Rotate, EndsAt;
    var (s', r) := IssueTokens(s, user, now);
    RunKeepsValid(s', steps);
    RefreshSucceedsExactly(Run(s', steps), Signed(r.token), later);
    SessionSurvives(s', steps, r.token);
  }

  // ---- signing in ----

  /** Which requests other than a refresh open a session, and for whom. */
  lemma SessionsOpenExactly(s: State, step: Step, user: int)
    ensures OpensSession(s, step, user)
        <==> match step.event
             case SignIn(u) => u == user && u in s.users && !s.users[u]
             case SecondFactor(u, codeMatches) => u == user && u in s.users && codeMatches
             case OAuth(u) => u == user
             case _ => false
  {
  }

  /**
   A second factor is asked for exactly when a known user who has it on signs in with a password;
   a sign-in that opens no session leaves everything as it was.
   */
  lemma SecondFactorAskedExactly(s: State, e: Event, now: int)
    ensures var (s', r) := Apply(s, e, now);
      && (r == NeedsSecondFactor <==> e.SignIn? && e.user in s.users && s.users[e.user])
      && (r == NeedsSecondFactor ==> s' == s)
      && (e.SignIn? || e.SecondFactor? ==> (r.Issued? || s' == s))
      && (r == Unauthorized && !e.Refresh? <==>
            (e.SignIn? && e.user !in s.users) || (e.SecondFactor? && (e.user !in s.users || !e.codeMatches)))
  {
  }

  /** Who has an account after a request, and whether with a second factor: told user by user. */
  lemma AccountsAfter(s: State, e: Event, now: int, user: int)
    ensures var users := Apply(s, e, now).0.users;
      && (user in users <==> e == Register(user) || e == OAuth(user) || (user in s.users && e != DeleteAccount(user)))
      && (user in users ==>
            (users[user] <==> user in s.users && if e.SetSecondFactor? && e.user == user then e.on else s.users[user]))
  {
  }
}
