/**
 Password-reset tokens (`requestPasswordReset` and `resetPassword` of `src/auth/auth.service.ts`,
 and the nightly purge of `src/common/cleanup/cleanup.service.ts`). Requests run one after
 another; a token is known by the number of its draw, and a stored password by its plain text.
 */
module PasswordReset {
  import opened Wrappers

  const TOKEN_LIFE := 3_600_000
  const MIN_LENGTH := 8

  datatype Record = Record(userId: int, expiresAt: int)

  datatype State = State(emails: map<string, int>, passwords: map<int, string>,
                         tokens: map<nat, Record>, nextToken: nat)
  {
    ghost predicate Valid() {
      && (forall t :: t in tokens ==> t < nextToken && tokens[t].userId in passwords)
      && (forall e :: e in emails ==> emails[e] in passwords)
      && (forall t, t' :: t in tokens && t' in tokens && tokens[t].userId == tokens[t'].userId ==> t == t')
    }
  }

  /** Both failures of a reset; asking for one never fails, whether or not the address is known. */
  datatype ResetError = TooShort | InvalidOrExpired

  function WithoutUser(tokens: map<nat, Record>, user: int): map<nat, Record> {
    map t | t in tokens && tokens[t].userId != user :: tokens[t]
  }

  function RequestReset(s: State, email: string, now: int): (State, Option<nat>) {
    if email !in s.emails then (s, None)
    else
      var user := s.emails[email];
      (s.(tokens := WithoutUser(s.tokens, user)[s.nextToken := Record(user, now + TOKEN_LIFE)],
          nextToken := s.nextToken + 1),
       Some(s.nextToken))
  }

  function ResetPassword(s: State, token: nat, password: string, now: int): (State, Result<bool, ResetError>) {
    if |password| < MIN_LENGTH then (s, Failure(TooShort))
    else if token !in s.tokens || s.tokens[token].expiresAt < now then (s, Failure(InvalidOrExpired))
    else
      (s.(passwords := s.passwords[s.tokens[token].userId := password], tokens := s.tokens - {token}), Success(true))
  }

  function PurgeExpired(s: State, now: int): State {
    s.(tokens := map t | t in s.tokens && s.tokens[t].expiresAt >= now :: s.tokens[t])
  }

  class PasswordResets {
    var emails: map<string, int>
    var passwords: map<int, string>
    var tokens: map<nat, Record>
    var nextToken: nat

    ghost function Current(): State
      reads this
    {
      State(emails, passwords, tokens, nextToken)
    }

    method Request(email: string, now: int) returns (mailed: Option<nat>)
      modifies this
      ensures (Current(), mailed) == RequestReset(old(Current()), email, now)
    {
      if email !in emails {
        return None;
      }
      var user := emails[email];
      tokens := WithoutUser(tokens, user);
      var token := nextToken;
      nextToken := nextToken + 1;
      tokens := tokens[token := Record(user, now + TOKEN_LIFE)];
      return Some(token);
    }

    method Reset(token: nat, password: string, now: int) returns (r: Result<bool, ResetError>)
      modifies this
      ensures (Current(), r) == ResetPassword(old(Current()), token, password, now)
    {
      if |password| < MIN_LENGTH {
        return Failure(TooShort);
      }
      if token !in tokens || tokens[token].expiresAt < now {
        return Failure(InvalidOrExpired);
      }
      passwords := passwords[tokens[token].userId := password];
      tokens := tokens - {token};
      return Success(true);
    }
  }

  datatype Event =
    | Request(email: string, now: int)
    | Reset(token: nat, password: string, now: int)
    | Purge(now: int)

  function Apply(s: State, e: Event): State {
    match e
    case Request(email, now) => RequestReset(s, email, now).0
    case Reset(token, password, now) => ResetPassword(s, token, password, now).0
    case Purge(now) => PurgeExpired(s, now)
  }

  function Run(s: State, events: seq<Event>): State {
    if events == [] then s else Apply(Run(s, events[..|events| - 1]), events[|events| - 1])
  }

  lemma ApplyKeepsValid(s: State, e: Event)
    requires s.Valid()
    ensures Apply(s, e).Valid() && s.nextToken <= Apply(s, e).nextToken
  {
    if e.Request? && e.email in s.emails {
      var s' := Apply(s, e);
      assert forall t :: t in s'.tokens && t != s.nextToken ==> t in s.tokens && s'.tokens[t] == s.tokens[t];
    }
  }

  /** However it goes, each user has at most one live reset token. */
  lemma {:induction false} RunKeepsValid(s: State, events: seq<Event>)
    requires s.Valid()
    ensures Run(s, events).Valid() && s.nextToken <= Run(s, events).nextToken
  {
    if events != [] {
      RunKeepsValid(s, events[..|events| - 1]);
      ApplyKeepsValid(Run(s, events[..|events| - 1]), events[|events| - 1]);
    }
  }

  /** Run from `s`, the event takes token `t` out of use: told by the event and by what `s` holds of `t`. */
  ghost predicate EndsBy(s: State, e: Event, t: nat)
    requires t in s.tokens
  {
    match e
    case Request(email, _) => email in s.emails && s.emails[email] == s.tokens[t].userId
    case Reset(token, password, now) => token == t && |password| >= MIN_LENGTH && now <= s.tokens[t].expiresAt
    case Purge(now) => s.tokens[t].expiresAt < now
  }

  /** A drawn token that is no longer stored stays unusable for ever. */
  lemma {:induction false} GoneForever(s: State, events: seq<Event>, t: nat)
    requires s.Valid() && t < s.nextToken && t !in s.tokens
    ensures t !in Run(s, events).tokens
  {
    if events != [] {
      GoneForever(s, events[..|events| - 1], t);
      RunKeepsValid(s, events[..|events| - 1]);
    }
  }

  /**
   A live token resets the password after a run exactly when no event of the run ended it (by
   using it, by a newer request of its user, or by the purge), it has not expired, and the new
   password is long enough.
   */
  lemma ResetSucceedsExactly(s: State, events: seq<Event>, t: nat, password: string, now: int)
    requires s.Valid() && t in s.tokens
    ensures ResetPassword(Run(s, events), t, password, now).1.Success?
        <==> (forall i :: 0 <= i < |events| ==> !EndsBy(s, events[i], t))
             && now <= s.tokens[t].expiresAt && |password| >= MIN_LENGTH
  {
    TokenSurvives(s, events, t);
  }

  /** A token outlives a run, unchanged, exactly when no event of the run ends it. */
  lemma {:induction false} TokenSurvives(s: State, events: seq<Event>, t: nat)
    requires s.Valid() && t in s.tokens
    ensures var s' := Run(s, events);
      && s'.emails == s.emails
      && (t in s'.tokens ==> s'.tokens[t] == s.tokens[t])
      && (t in s'.tokens <==> forall i :: 0 <= i < |events| ==> !EndsBy(s, events[i], t))
  {
    hide EndsBy, Apply;
    if events != [] {
      var n := |events| - 1;
      var front := events[..n];
      var before := Run(s, front);
      TokenSurvives(s, front, t);
      RunKeepsValid(s, front);
      TokenStep(before, events[n], t);
      if t in before.tokens {
        SameEnd(s, before, events[n], t);
      }
      assert forall i :: 0 <= i < n ==> front[i] == events[i];
    }
  }

  lemma TokenStep(s: State, e: Event, t: nat)
    requires s.Valid() && t < s.nextToken
    ensures Apply(s, e).emails == s.emails
    ensures t in Apply(s, e).tokens <==> t in s.tokens && !EndsBy(s, e, t)
    ensures t in Apply(s, e).tokens ==> Apply(s, e).tokens[t] == s.tokens[t]
  {
  }

  /** What ends a token depends only on the addresses and on its record. */
  lemma SameEnd(s: State, s': State, e: Event, t: nat)
    requires t in s.tokens && t in s'.tokens
    requires s'.emails == s.emails && s'.tokens[t] == s.tokens[t]
    ensures EndsBy(s', e, t) == EndsBy(s, e, t)
  {
  }

  /** A successful reset sets its user's password and no other, and the token never works again. */
  lemma ResetUsedOnce(s: State, token: nat, password: string, now: int, events: seq<Event>, again: string, later: int)
    requires s.Valid() && ResetPassword(s, token, password, now).1.Success?
    ensures var s' := ResetPassword(s, token, password, now).0;
      && token in s.tokens
      && s'.passwords == s.passwords[s.tokens[token].userId := password]
      && ResetPassword(Run(s', events), token, again, later).1.Failure?
      && ResetPassword(Run(s', events), token, again, later).0 == Run(s', events)
  {
    var s' := ResetPassword(s, token, password, now).0;
    ApplyKeepsValid(s, Reset(token, password, now));
    GoneForever(s', events, token);
  }

  /** `purged` is `s` less some tokens that had expired by `p`. */
  ghost predicate LacksExpired(s: State, purged: State, p: int) {
    && purged.emails == s.emails && purged.passwords == s.passwords && purged.nextToken == s.nextToken
    && (forall t :: t in purged.tokens ==> t in s.tokens && purged.tokens[t] == s.tokens[t])
    && (forall t :: t in s.tokens && t !in purged.tokens ==> s.tokens[t].expiresAt < p)
  }

  lemma LacksExpiredAfter(s: State, purged: State, e: Event, p: int)
    requires s.Valid() && LacksExpired(s, purged, p) && p <= e.now
    ensures LacksExpired(Apply(s, e), Apply(purged, e), p)
  {
  }

  lemma {:induction false} LacksExpiredRun(s: State, purged: State, events: seq<Event>, p: int)
    requires s.Valid() && LacksExpired(s, purged, p)
    requires forall i :: 0 <= i < |events| ==> p <= events[i].now
    ensures LacksExpired(Run(s, events), Run(purged, events), p)
  {
    hide Apply, LacksExpired;
    if events != [] {
      var n := |events| - 1;
      LacksExpiredRun(s, purged, events[..n], p);
      RunKeepsValid(s, events[..n]);
      LacksExpiredAfter(Run(s, events[..n]), Run(purged, events[..n]), events[n], p);
    }
  }

  /**
   The purge is invisible: after any further events, none of them earlier than it, every reset
   gets the answer, and leaves the passwords, it would have without the purge.
   */
  lemma PurgeInvisible(s: State, p: int, events: seq<Event>, token: nat, password: string, now: int)
    requires s.Valid() && p <= now && forall i :: 0 <= i < |events| ==> p <= events[i].now
    ensures var (plain, answer) := ResetPassword(Run(s, events), token, password, now);
      var (purged, answer') := ResetPassword(Run(PurgeExpired(s, p), events), token, password, now);
      answer' == answer && purged.passwords == plain.passwords
  {
    LacksExpiredRun(s, PurgeExpired(s, p), events, p);
  }

  /** A request leaves the user with one token, which works for an hour and sets that user's password. */
  lemma RequestedTokenWorks(s: State, email: string, now: int, password: string, later: int)
    requires s.Valid() && email in s.emails
    ensures var (s', mailed) := RequestReset(s, email, now);
      var user := s.emails[email];
      && mailed.Some? && mailed.value !in s.tokens
      && (forall t :: t in s'.tokens && s'.tokens[t].userId == user <==> t == mailed.value)
      && (forall t :: t in s.tokens && s.tokens[t].userId != user ==> t in s'.tokens && s'.tokens[t] == s.tokens[t])
      && (ResetPassword(s', mailed.value, password, later).1.Success?
          <==> later <= now + TOKEN_LIFE && |password| >= MIN_LENGTH)
      && (ResetPassword(s', mailed.value, password, later).1.Success? ==>
          ResetPassword(s', mailed.value, password, later).0.passwords == s.passwords[user := password])
  {
  }

  /** Which resets are refused and why; a refused one changes nothing. */
  lemma ResetFailsExactly(s: State, token: nat, password: string, now: int)
    ensures var (s', r) := ResetPassword(s, token, password, now);
      && (r == Failure(TooShort) <==> |password| < MIN_LENGTH)
      && (r == Failure(InvalidOrExpired) <==>
            |password| >= MIN_LENGTH && (token in s.tokens ==> s.tokens[token].expiresAt < now))
      && (r.Failure? ==> s' == s)
  {
  }

  /** Asking for an unknown address mails nothing and changes nothing; a known one is always mailed a token. */
  lemma MailedExactly(s: State, email: string, now: int)
    ensures var (s', mailed) := RequestReset(s, email, now);
      && (mailed.Some? <==> email in s.emails)
      && (mailed.None? ==> s' == s)
      && s'.emails == s.emails && s'.passwords == s.passwords
  {
  }
}
