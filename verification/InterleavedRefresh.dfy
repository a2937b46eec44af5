/**
 Refreshes of one token that overlap. `refresh` finds the record, finds the user, deletes the
 record without looking at how many rows went, and stores the next one; each of these steps is a
 database call of its own, and other steps run in between.
 */
module InterleavedRefresh {
  import opened RefreshTokens

  /** How far a refresh has come. `Failed`: its user was deleted before the new record was stored. */
  datatype Stage =
    | Waiting | RecordMissing | RecordFound | UserFound | RecordDeleted
    | Answered(outcome: Outcome)
    | Failed

  datatype Job = Job(token: Token, stage: Stage)

  datatype System = System(s: State, jobs: map<nat, Job>)

  /** One step of a refresh, or another request served as a whole. */
  datatype Act = Advance(job: nat, now: int) | Serve(event: Event, now: int)

  /** The next step of a refresh showing `t`. */
  function NextStep(s: State, t: Token, stage: Stage, now: int): (State, Stage) {
    match stage
    case Waiting =>
      if t !in s.issued || t.expires <= now then (s, Answered(Unauthorized))
      else if t !in s.records then (s, RecordMissing)
      else if s.records[t].expiresAt < now then (s, Answered(Unauthorized))
      else (s, RecordFound)
    case RecordMissing =>
      (s.(records := WithoutUser(s.records, t.sub), alarms := WithAlarm(s.users, s.alarms, t.sub)),
       Answered(Unauthorized))
    case RecordFound =>
      (s, if t.sub in s.users then UserFound else Answered(Unauthorized))
    case UserFound =>
      (s.(records := s.records - {t}), RecordDeleted)
    case RecordDeleted =>
      if t.sub !in s.users then (s, Failed)
      else
        var (s', r) := IssueTokens(s, t.sub, now);
        (s', Answered(r))
    case _ => (s, stage)
  }

  function Perform(sys: System, act: Act): System {
    match act
    case Serve(event, now) => sys.(s := Apply(sys.s, event, now).0)
    case Advance(p, now) =>
      if p !in sys.jobs then sys
      else
        var (s', stage) := NextStep(sys.s, sys.jobs[p].token, sys.jobs[p].stage, now);
        System(s', sys.jobs[p := sys.jobs[p].(stage := stage)])
  }

  function RunActs(sys: System, acts: seq<Act>): System {
    if acts == [] then sys else Perform(RunActs(sys, acts[..|acts| - 1]), acts[|acts| - 1])
  }

  /** A refresh nothing comes between does what the whole request does. */
  lemma AloneIsRotate(s: State, t: Token, now: int, p: nat)
    requires s.Valid()
    ensures var act := Advance(p, now);
      RunActs(System(s, map[p := Job(t, Waiting)]), [act, act, act, act])
      == var (s', r) := Rotate(s, Signed(t), now); System(s', map[p := Job(t, Answered(r))])
  {
    hide RunActs, Perform, NextStep, Rotate;
    var act := Advance(p, now);
    FourActs(System(s, map[p := Job(t, Waiting)]), act, act, act, act);
    var (s1, stage1) := NextStep(s, t, Waiting, now);
    var (s2, stage2) := NextStep(s1, t, stage1, now);
    var (s3, stage3) := NextStep(s2, t, stage2, now);
    PerformAlone(s, Job(t, Waiting), now, p);
    PerformAlone(s1, Job(t, stage1), now, p);
    PerformAlone(s2, Job(t, stage2), now, p);
    PerformAlone(s3, Job(t, stage3), now, p);
    FourSteps(s, t, now);
  }

  lemma PerformAlone(s: State, job: Job, now: int, p: nat)
    ensures var (s', stage) := NextStep(s, job.token, job.stage, now);
      Perform(System(s, map[p := job]), Advance(p, now)) == System(s', map[p := Job(job.token, stage)])
  {
    hide NextStep;
  }

  lemma FourSteps(s: State, t: Token, now: int)
    requires s.Valid()
    ensures var (s1, stage1) := NextStep(s, t, Waiting, now);
      var (s2, stage2) := NextStep(s1, t, stage1, now);
      var (s3, stage3) := NextStep(s2, t, stage2, now);
      var (s', r) := Rotate(s, Signed(t), now);
      NextStep(s3, t, stage3, now) == (s', Answered(r))
  {
    hide IssueTokens, WithoutUser;
  }

  lemma FourActs(sys: System, a: Act, b: Act, c: Act, d: Act)
    ensures RunActs(sys, [a, b, c, d]) == Perform(Perform(Perform(Perform(sys, a), b), c), d)
  {
    hide Perform;
    var acts := [a, b, c, d];
    assert acts[..3] == [a, b, c] && acts[..3][..2] == [a, b] && acts[..3][..2][..1] == [a];
    assert RunActs(sys, acts[..3][..2][..1]) == Perform(sys, a);
    assert RunActs(sys, acts[..3][..2]) == Perform(Perform(sys, a), b);
    assert RunActs(sys, acts[..3]) == Perform(Perform(Perform(sys, a), b), c);
  }

  lemma {:induction false} RunActsSplit(sys: System, a: seq<Act>, b: seq<Act>)
    ensures RunActs(sys, a + b) == RunActs(RunActs(sys, a), b)
  {
    hide Perform;
    if b == [] {
      assert a + b == a;
    } else {
      var n := |b| - 1;
      assert (a + b)[..|a| + n] == a + b[..n];
      RunActsSplit(sys, a, b[..n]);
    }
  }

  // ---- what the order of the steps decides ----

  /** How many steps `p` has taken. */
  function Count(acts: seq<Act>, p: nat): nat {
    if acts == [] then 0
    else
      var n := |acts| - 1;
      Count(acts[..n], p) + if acts[n].Advance? && acts[n].job == p then 1 else 0
  }

  /** A refresh has taken its third step, the deletion. */
  ghost predicate Gone(jobs: set<nat>, acts: seq<Act>) {
    exists r :: r in jobs && Count(acts, r) >= 3
  }

  /** The first step of `p` comes after the third step of another. */
  ghost predicate Late(jobs: set<nat>, acts: seq<Act>, p: nat) {
    acts != [] &&
    var n := |acts| - 1;
    Late(jobs, acts[..n], p)
    || (acts[n].Advance? && acts[n].job == p && Count(acts[..n], p) == 0 && Gone(jobs, acts[..n]))
  }

  /** A late refresh takes its second step, the revocation, after the fourth step of `p`. */
  ghost predicate RevokedAfter(jobs: set<nat>, acts: seq<Act>, p: nat) {
    acts != [] &&
    var n := |acts| - 1;
    RevokedAfter(jobs, acts[..n], p)
    || (acts[n].Advance? && acts[n].job in jobs && Count(acts[..n], p) >= 4
        && Late(jobs, acts[..n], acts[n].job) && Count(acts[..n], acts[n].job) == 1)
  }

  /** The refreshes that have revoked. */
  ghost function Revokers(jobs: set<nat>, acts: seq<Act>): set<nat> {
    set p | p in jobs && Late(jobs, acts, p) && Count(acts, p) >= 2
  }

  ghost function LateOnes(jobs: set<nat>, acts: seq<Act>): set<nat> {
    set p | p in jobs && Late(jobs, acts, p)
  }

  ghost function Finished(jobs: set<nat>, acts: seq<Act>): set<nat> {
    set p | p in jobs && Count(acts, p) >= 4
  }

  /** The request is not about this user. */
  predicate Elsewhere(event: Event, user: int) {
    match event
    case Refresh(cookie) => cookie.Signed? ==> cookie.token.sub != user
    case _ => event.user != user
  }

  /**
   Refreshes of the live token `t`, none begun; between their steps only requests of other users.
   They begin while the token's lifetimes last.
   */
  ghost predicate Overlapping(sys: System, t: Token, acts: seq<Act>) {
    && sys.s.Valid() && t in sys.s.records
    && (forall p :: p in sys.jobs ==> sys.jobs[p] == Job(t, Waiting))
    && (forall i :: 0 <= i < |acts| ==>
      match acts[i]
      case Serve(event, _) => Elsewhere(event, t.sub)
      case Advance(p, now) => Count(acts[..i], p) == 0 ==> now < t.expires && now <= sys.s.records[t].expiresAt)
  }

  /** Where a refresh stands after `count` steps. */
  ghost predicate StandsAt(stage: Stage, late: bool, count: nat) {
    if count == 0 then stage == Waiting
    else if late then stage == if count == 1 then RecordMissing else Answered(Unauthorized)
    else if count == 1 then stage == RecordFound
    else if count == 2 then stage == UserFound
    else if count == 3 then stage == RecordDeleted
    else stage.Answered? && stage.outcome.Issued?
  }

  /** What holds at any time of an overlap that began in `s0`. */
  ghost predicate Holds(s0: State, t: Token, jobs: set<nat>, acts: seq<Act>, sys: System) {
    && StateHolds(s0, t, jobs, acts, sys)
    && (forall p :: p in jobs ==> JobHolds(s0, t, jobs, acts, sys, p))
  }

  ghost predicate StateHolds(s0: State, t: Token, jobs: set<nat>, acts: seq<Act>, sys: System) {
    && sys.s.Valid() && s0.issued <= sys.s.issued && t in s0.issued && t.sub in sys.s.users
    && sys.jobs.Keys == jobs
    && (t in sys.s.records <==> !Gone(jobs, acts))
    && (t in sys.s.records ==> t in s0.records && sys.s.records[t] == s0.records[t])
    && sys.s.alarms[t.sub] == s0.alarms[t.sub] + |Revokers(jobs, acts)|
    && ((forall p :: p in jobs ==> !Late(jobs, acts, p)) ==>
      |Live(sys.s, t.sub)| + (if Gone(jobs, acts) then 1 else 0) == |Live(s0, t.sub)| + |Finished(jobs, acts)|)
  }

  ghost predicate JobHolds(s0: State, t: Token, jobs: set<nat>, acts: seq<Act>, sys: System, p: nat) {
    && p in sys.jobs && sys.jobs[p].token == t
    && StandsAt(sys.jobs[p].stage, Late(jobs, acts, p), Count(acts, p))
    && (sys.jobs[p].stage.Answered? && sys.jobs[p].stage.outcome.Issued? ==>
      var token := sys.jobs[p].stage.outcome.token;
      && token.sub == t.sub && token in sys.s.issued && token !in s0.issued
      && (token in sys.s.records <==> !RevokedAfter(jobs, acts, p)))
  }

  // ---- one act ----

  lemma {:induction false} LateImplies(jobs: set<nat>, acts: seq<Act>, p: nat)
    ensures Late(jobs, acts, p) ==> Count(acts, p) >= 1 && Gone(jobs, acts)
    ensures RevokedAfter(jobs, acts, p) ==> Count(acts, p) >= 4
  {
    if acts != [] {
      var front := acts[..|acts| - 1];
      LateImplies(jobs, front, p);
      if Gone(jobs, front) {
        var r :| r in jobs && Count(front, r) >= 3;
        assert Count(acts, r) >= 3;
      }
    }
  }

  /** What an act of a refresh changes in the books. */
  lemma Bookkeeping(jobs: set<nat>, acts: seq<Act>)
    requires acts != [] && acts[|acts| - 1].Advance?
    ensures var front, p := acts[..|acts| - 1], acts[|acts| - 1].job;
      var late, count := Late(jobs, front, p), Count(front, p);
      && (forall r :: Count(acts, r) == Count(front, r) + if r == p then 1 else 0)
      && (forall r :: Late(jobs, acts, r)
            <==> Late(jobs, front, r) || (r == p && count == 0 && Gone(jobs, front)))
      && (forall r :: RevokedAfter(jobs, acts, r)
            <==> RevokedAfter(jobs, front, r) || (p in jobs && Count(front, r) >= 4 && late && count == 1))
      && (Gone(jobs, acts) <==> Gone(jobs, front) || (p in jobs && count == 2))
      && Revokers(jobs, acts) == Revokers(jobs, front) + (if p in jobs && late && count == 1 then {p} else {})
      && Finished(jobs, acts) == Finished(jobs, front) + (if p in jobs && count == 3 then {p} else {})
  {
    var front, p := acts[..|acts| - 1], acts[|acts| - 1].job;
    LateImplies(jobs, front, p);
    if Gone(jobs, front) {
      var r :| r in jobs && Count(front, r) >= 3;
      assert Count(acts, r) >= 3;
    }
    if p in jobs && Count(front, p) == 2 {
      assert Count(acts, p) >= 3;
    }
  }

  lemma NothingCounted(jobs: set<nat>, acts: seq<Act>)
    requires acts != [] && acts[|acts| - 1].Serve?
    ensures var front := acts[..|acts| - 1];
      && (forall r :: Count(acts, r) == Count(front, r) && Late(jobs, acts, r) == Late(jobs, front, r)
                      && RevokedAfter(jobs, acts, r) == RevokedAfter(jobs, front, r))
      && Gone(jobs, acts) == Gone(jobs, front)
      && Revokers(jobs, acts) == Revokers(jobs, front) && Finished(jobs, acts) == Finished(jobs, front)
  {
    var front := acts[..|acts| - 1];
    assert forall r :: Count(acts, r) == Count(front, r) && Late(jobs, acts, r) == Late(jobs, front, r);
  }

  /** What `user` has is the same in both states, and the second is valid. */
  ghost predicate SameFor(s: State, s': State, user: int) {
    && s'.Valid() && s.issued <= s'.issued
    && (user in s'.users <==> user in s.users) && s'.alarms[user] == s.alarms[user]
    && (forall t: Token :: t.sub == user ==> (t in s'.records <==> t in s.records))
    && (forall t: Token :: t.sub == user && t in s.records ==> s'.records[t] == s.records[t])
  }

  /** A request of another user leaves this user's sessions and alarms alone. */
  lemma ServeElsewhere(s: State, event: Event, now: int, user: int)
    requires s.Valid() && Elsewhere(event, user)
    ensures var s' := Apply(s, event, now).0; SameFor(s, s', user) && Live(s', user) == Live(s, user)
  {
    ApplyKeepsValid(s, event, now);
    match event {
      case SignIn(u) => IssueElsewhere(s, u, now, user);
      case SecondFactor(u, _) => IssueElsewhere(s, u, now, user);
      case OAuth(u) => IssueElsewhere(if u in s.users then s else s.(users := s.users[u := false]), u, now, user);
      case Refresh(cookie) => RotateElsewhere(s, cookie, now, user);
      case _ => {}
    }
    assert SameFor(s, Apply(s, event, now).0, user);
    SameLive(s, Apply(s, event, now).0, user);
  }

  lemma SameLive(s: State, s': State, user: int)
    requires s.Valid() && SameFor(s, s', user)
    ensures Live(s', user) == Live(s, user)
  {
  }

  lemma IssueElsewhere(s: State, u: int, now: int, user: int)
    requires s.Valid() && u != user
    ensures u in s.users ==> SameFor(s, IssueTokens(s, u, now).0, user)
  {
    if u in s.users {
      IssueKeepsValid(s, u, now);
    }
  }

  lemma RotateElsewhere(s: State, cookie: Cookie, now: int, user: int)
    requires s.Valid() && (cookie.Signed? ==> cookie.token.sub != user)
    ensures SameFor(s, Rotate(s, cookie, now).0, user)
  {
    RotateKeepsValid(s, cookie, now);
    if cookie.Signed? && cookie.token.sub in s.users {
      IssueElsewhere(s.(records := s.records - {cookie.token}), cookie.token.sub, now, user);
    }
  }

  lemma HoldsAfterServe(s0: State, t: Token, jobs: set<nat>, acts: seq<Act>, sys: System)
    requires acts != [] && acts[|acts| - 1].Serve? && Elsewhere(acts[|acts| - 1].event, t.sub)
    requires Holds(s0, t, jobs, acts[..|acts| - 1], sys)
    ensures Holds(s0, t, jobs, acts, Perform(sys, acts[|acts| - 1]))
  {
    hide Late, Gone, Count, RevokedAfter, Revokers, Finished, Live, Apply, StandsAt;
    var act := acts[|acts| - 1];
    NothingCounted(jobs, acts);
    ServeElsewhere(sys.s, act.event, act.now, t.sub);
    forall p | p in jobs
      ensures JobHolds(s0, t, jobs, acts, Perform(sys, act), p)
    {
      assert JobHolds(s0, t, jobs, acts[..|acts| - 1], sys, p);
    }
  }

  lemma RevokeStep(s: State, t: Token, now: int)
    requires s.Valid() && t.sub in s.users
    ensures var (s', stage) := NextStep(s, t, RecordMissing, now);
      && stage == Answered(Unauthorized) && s'.Valid()
      && s'.issued == s.issued && s'.users == s.users
      && s'.alarms[t.sub] == s.alarms[t.sub] + 1
      && forall token: Token :: token.sub == t.sub ==> token !in s'.records
  {
  }

  lemma DeleteStep(s: State, t: Token, now: int)
    requires s.Valid()
    ensures var (s', stage) := NextStep(s, t, UserFound, now);
      && stage == RecordDeleted && s'.Valid()
      && s'.issued == s.issued && s'.users == s.users && s'.alarms == s.alarms
      && s'.records == s.records - {t}
      && |Live(s', t.sub)| + (if t in s.records then 1 else 0) == |Live(s, t.sub)|
  {
    var s' := s.(records := s.records - {t});
    assert Live(s', t.sub) == Live(s, t.sub) - {t};
  }

  lemma StoreStep(s: State, t: Token, now: int)
    requires s.Valid() && t.sub in s.users
    ensures var (s', stage) := NextStep(s, t, RecordDeleted, now);
      && stage.Answered? && stage.outcome.Issued? && s'.Valid()
      && s.issued <= s'.issued && s'.users == s.users && s'.alarms == s.alarms
      && var token := stage.outcome.token;
      && token.sub == t.sub && token in s'.issued && token !in s.issued
      && s'.records == s.records[token := Record(t.sub, now + RECORD_LIFE)]
      && |Live(s', t.sub)| == |Live(s, t.sub)| + 1
  {
    hide Live;
    IssueKeepsValid(s, t.sub, now);
    LiveAfterIssue(s, t.sub, now, t.sub);
  }

  lemma OneMore(xs: set<nat>, x: nat)
    requires x !in xs
    ensures |xs + {x}| == |xs| + 1
  {
  }

  /** The act at the end is a step of one of the refreshes, begun in time, and all was well before it. */
  ghost predicate StepTaken(s0: State, t: Token, jobs: set<nat>, acts: seq<Act>, sys: System) {
    && acts != [] && acts[|acts| - 1].Advance? && acts[|acts| - 1].job in jobs
    && Holds(s0, t, jobs, acts[..|acts| - 1], sys) && sys.jobs.Keys == jobs
    && t in s0.records
    && var act := acts[|acts| - 1];
       Count(acts[..|acts| - 1], act.job) == 0 ==> act.now < t.expires && act.now <= s0.records[t].expiresAt
  }

  lemma StateHoldsAfterStep(s0: State, t: Token, jobs: set<nat>, acts: seq<Act>, sys: System)
    requires StepTaken(s0, t, jobs, acts, sys)
    ensures StateHolds(s0, t, jobs, acts, Perform(sys, acts[|acts| - 1]))
  {
    hide StateHolds, JobHolds, Perform;
    var stage := sys.jobs[acts[|acts| - 1].job].stage;
    if stage.RecordMissing? {
      StateHoldsAfterRevoking(s0, t, jobs, acts, sys);
    } else if stage.UserFound? {
      StateHoldsAfterDeleting(s0, t, jobs, acts, sys);
    } else if stage.RecordDeleted? {
      StateHoldsAfterStoring(s0, t, jobs, acts, sys);
    } else {
      StateHoldsAfterLooking(s0, t, jobs, acts, sys);
    }
  }

  lemma StateHoldsAfterRevoking(s0: State, t: Token, jobs: set<nat>, acts: seq<Act>, sys: System)
    requires StepTaken(s0, t, jobs, acts, sys) && sys.jobs[acts[|acts| - 1].job].stage == RecordMissing
    ensures StateHolds(s0, t, jobs, acts, Perform(sys, acts[|acts| - 1]))
  {
    hide Late, Gone, Count, RevokedAfter, Revokers, Finished, Live, NextStep;
    var front, act := acts[..|acts| - 1], acts[|acts| - 1];
    assert JobHolds(s0, t, jobs, front, sys, act.job);
    Bookkeeping(jobs, acts);
    LateImplies(jobs, front, act.job);
    RevokeStep(sys.s, t, act.now);
    RevokesNow(jobs, front, act.job);
  }

  lemma StateHoldsAfterDeleting(s0: State, t: Token, jobs: set<nat>, acts: seq<Act>, sys: System)
    requires StepTaken(s0, t, jobs, acts, sys) && sys.jobs[acts[|acts| - 1].job].stage == UserFound
    ensures StateHolds(s0, t, jobs, acts, Perform(sys, acts[|acts| - 1]))
  {
    hide Late, Gone, Count, RevokedAfter, Revokers, Finished, Live, NextStep;
    var front, act := acts[..|acts| - 1], acts[|acts| - 1];
    assert JobHolds(s0, t, jobs, front, sys, act.job);
    Bookkeeping(jobs, acts);
    LateImplies(jobs, front, act.job);
    DeleteStep(sys.s, t, act.now);
  }

  lemma StateHoldsAfterStoring(s0: State, t: Token, jobs: set<nat>, acts: seq<Act>, sys: System)
    requires StepTaken(s0, t, jobs, acts, sys) && sys.jobs[acts[|acts| - 1].job].stage == RecordDeleted
    ensures StateHolds(s0, t, jobs, acts, Perform(sys, acts[|acts| - 1]))
  {
    hide Late, Gone, Count, RevokedAfter, Revokers, Finished, Live, NextStep;
    var front, act := acts[..|acts| - 1], acts[|acts| - 1];
    assert JobHolds(s0, t, jobs, front, sys, act.job);
    Bookkeeping(jobs, acts);
    LateImplies(jobs, front, act.job);
    StoreStep(sys.s, t, act.now);
    FinishesNow(jobs, front, act.job);
  }

  lemma StateHoldsAfterLooking(s0: State, t: Token, jobs: set<nat>, acts: seq<Act>, sys: System)
    requires StepTaken(s0, t, jobs, acts, sys)
    requires sys.jobs[acts[|acts| - 1].job].stage !in {RecordMissing, UserFound, RecordDeleted}
    ensures StateHolds(s0, t, jobs, acts, Perform(sys, acts[|acts| - 1]))
  {
    hide Late, Gone, Count, RevokedAfter, Revokers, Finished, Live, NextStep;
    var front, act := acts[..|acts| - 1], acts[|acts| - 1];
    assert JobHolds(s0, t, jobs, front, sys, act.job);
    Bookkeeping(jobs, acts);
    LateImplies(jobs, front, act.job);
    LookingStep(sys.s, t, sys.jobs[act.job].stage, act.now);
  }

  lemma RevokesNow(jobs: set<nat>, acts: seq<Act>, p: nat)
    requires Count(acts, p) < 2
    ensures |Revokers(jobs, acts) + {p}| == |Revokers(jobs, acts)| + 1
  {
    OneMore(Revokers(jobs, acts), p);
  }

  lemma FinishesNow(jobs: set<nat>, acts: seq<Act>, p: nat)
    requires Count(acts, p) < 4
    ensures |Finished(jobs, acts) + {p}| == |Finished(jobs, acts)| + 1
  {
    OneMore(Finished(jobs, acts), p);
  }

  /** The other steps only look. */
  lemma LookingStep(s: State, t: Token, stage: Stage, now: int)
    requires stage !in {RecordMissing, UserFound, RecordDeleted}
    ensures NextStep(s, t, stage, now).0 == s
    ensures stage.Answered? ==> NextStep(s, t, stage, now).1 == stage
  {
  }

  lemma OwnJobHoldsAfterStep(s0: State, t: Token, jobs: set<nat>, acts: seq<Act>, sys: System)
    requires StepTaken(s0, t, jobs, acts, sys)
    ensures JobHolds(s0, t, jobs, acts, Perform(sys, acts[|acts| - 1]), acts[|acts| - 1].job)
  {
    hide Late, Gone, Count, RevokedAfter, Revokers, Finished, Live, NextStep;
    var front, act := acts[..|acts| - 1], acts[|acts| - 1];
    var p := act.job;
    assert JobHolds(s0, t, jobs, front, sys, p);
    Bookkeeping(jobs, acts);
    LateImplies(jobs, front, p);
    LateImplies(jobs, acts, p);
    var stage := sys.jobs[p].stage;
    StandsAfterStep(sys.s, t, stage, Late(jobs, front, p), Count(front, p), act.now);
    if stage.RecordDeleted? {
      StoreStep(sys.s, t, act.now);
    } else if stage.Answered? {
      LookingStep(sys.s, t, stage, act.now);
    }
  }

  /** A step takes a refresh one place further; the first one decides whether it is late. */
  lemma StandsAfterStep(s: State, t: Token, stage: Stage, late: bool, count: nat, now: int)
    requires s.Valid() && t in s.issued && t.sub in s.users
    requires StandsAt(stage, late, count) && (late ==> count >= 1)
    requires count == 0 ==> now < t.expires && (t in s.records ==> now <= s.records[t].expiresAt)
    ensures StandsAt(NextStep(s, t, stage, now).1, late || (count == 0 && t !in s.records), count + 1)
    ensures NextStep(s, t, stage, now).1.Answered? ==>
      stage.RecordMissing? || stage.RecordDeleted? || stage.Answered?
    ensures stage.RecordMissing? ==> NextStep(s, t, stage, now).1 == Answered(Unauthorized)
  {
  }

  lemma OtherJobHoldsAfterStep(s0: State, t: Token, jobs: set<nat>, acts: seq<Act>, sys: System, r: nat)
    requires StepTaken(s0, t, jobs, acts, sys)
    requires r in jobs && r != acts[|acts| - 1].job
    ensures JobHolds(s0, t, jobs, acts, Perform(sys, acts[|acts| - 1]), r)
  {
    hide Late, Gone, Count, RevokedAfter, Revokers, Finished, Live, NextStep;
    var front, act := acts[..|acts| - 1], acts[|acts| - 1];
    var p := act.job;
    assert JobHolds(s0, t, jobs, front, sys, p);
    assert JobHolds(s0, t, jobs, front, sys, r);
    Bookkeeping(jobs, acts);
    var stage := sys.jobs[p].stage;
    if stage.RecordMissing? {
      RevokeStep(sys.s, t, act.now);
    } else if stage.UserFound? {
      DeleteStep(sys.s, t, act.now);
    } else if stage.RecordDeleted? {
      StoreStep(sys.s, t, act.now);
    } else {
      LookingStep(sys.s, t, stage, act.now);
    }
  }

  lemma {:induction false} HoldsAlways(sys: System, t: Token, acts: seq<Act>)
    requires Overlapping(sys, t, acts)
    ensures Holds(sys.s, t, sys.jobs.Keys, acts, RunActs(sys, acts))
  {
    hide Late, Gone, Count, RevokedAfter, Revokers, Finished, Live, Perform, JobHolds;
    var jobs := sys.jobs.Keys;
    if acts == [] {
      HoldsAtFirst(sys, t);
    } else {
      var n := |acts| - 1;
      var front, act := acts[..n], acts[n];
      OverlappingFront(sys, t, acts);
      HoldsAlways(sys, t, front);
      var before := RunActs(sys, front);
      if act.Serve? {
        HoldsAfterServe(sys.s, t, jobs, acts, before);
      } else if act.job in jobs {
        StateHoldsAfterStep(sys.s, t, jobs, acts, before);
        forall p | p in jobs
          ensures JobHolds(sys.s, t, jobs, acts, RunActs(sys, acts), p)
        {
          if p == act.job {
            OwnJobHoldsAfterStep(sys.s, t, jobs, acts, before);
          } else {
            OtherJobHoldsAfterStep(sys.s, t, jobs, acts, before, p);
          }
        }
      } else {
        HoldsAfterStranger(sys.s, t, jobs, acts, before);
      }
    }
  }

  lemma OverlappingFront(sys: System, t: Token, acts: seq<Act>)
    requires acts != [] && Overlapping(sys, t, acts)
    ensures Overlapping(sys, t, acts[..|acts| - 1])
  {
    hide Count;
    var front := acts[..|acts| - 1];
    assert forall i :: 0 <= i < |front| ==> front[i] == acts[i] && front[..i] == acts[..i];
  }

  lemma HoldsAtFirst(sys: System, t: Token)
    requires Overlapping(sys, t, [])
    ensures Holds(sys.s, t, sys.jobs.Keys, [], sys)
  {
    var jobs := sys.jobs.Keys;
    assert Revokers(jobs, []) == {} && Finished(jobs, []) == {};
  }

  /** A step of a refresh there is not. */
  lemma HoldsAfterStranger(s0: State, t: Token, jobs: set<nat>, acts: seq<Act>, sys: System)
    requires acts != [] && acts[|acts| - 1].Advance? && acts[|acts| - 1].job !in jobs
    requires Holds(s0, t, jobs, acts[..|acts| - 1], sys)
    ensures Holds(s0, t, jobs, acts, Perform(sys, acts[|acts| - 1]))
  {
    hide Late, Gone, Count, RevokedAfter, Revokers, Finished, Live;
    Bookkeeping(jobs, acts);
    forall p | p in jobs
      ensures JobHolds(s0, t, jobs, acts, sys, p)
    {
      assert JobHolds(s0, t, jobs, acts[..|acts| - 1], sys, p);
    }
  }

  // ---- the outcome ----

  /**
   However the steps of any number of refreshes of one live token fall: those that look before the
   first deletion are all accepted, and only those. Each other one finds the record missing, raises
   an alarm and takes every session stored by then. An accepted refresh leaves a live session
   exactly when no such revocation follows it; if nobody is late, n refreshes leave n sessions in
   the place of one, and no alarm.
   */
  lemma OverlapOutcome(sys: System, t: Token, acts: seq<Act>)
    requires Overlapping(sys, t, acts)
    requires forall p :: p in sys.jobs ==> Count(acts, p) >= 4
    ensures var jobs, end := sys.jobs.Keys, RunActs(sys, acts);
      && end.jobs.Keys == jobs
      && (forall p :: p in jobs ==>
        && (if Late(jobs, acts, p) then end.jobs[p].stage == Answered(Unauthorized)
            else
              && end.jobs[p].stage.Answered? && end.jobs[p].stage.outcome.Issued?
              && var next := end.jobs[p].stage.outcome.token;
                 next.sub == t.sub && next !in sys.s.issued
                 && (next in end.s.records <==> !RevokedAfter(jobs, acts, p))))
      && end.s.alarms[t.sub] == sys.s.alarms[t.sub] + |LateOnes(jobs, acts)|
      && ((forall p :: p in jobs ==> !Late(jobs, acts, p)) && jobs != {} ==>
        |Live(end.s, t.sub)| == |Live(sys.s, t.sub)| - 1 + |jobs|)
  {
    hide Late, Count, RevokedAfter, Live, RunActs;
    var jobs, end := sys.jobs.Keys, RunActs(sys, acts);
    HoldsAlways(sys, t, acts);
    forall p | p in jobs
      ensures JobHolds(sys.s, t, jobs, acts, end, p)
    {
    }
    assert Finished(jobs, acts) == jobs;
    assert Revokers(jobs, acts) == LateOnes(jobs, acts);
  }

  // ---- two refreshes ----

  /** The first step of `p`, which finds the record, comes before the third of `q`, which deletes it. */
  ghost predicate FindsBeforeDelete(acts: seq<Act>, p: nat, q: nat) {
    forall i :: 0 <= i < |acts| && acts[i].Advance? && acts[i].job == q && Count(acts[..i], q) == 2
      ==> Count(acts[..i], p) >= 1
  }

  lemma FindsBeforeDeleteLast(acts: seq<Act>, p: nat, q: nat)
    requires acts != []
    ensures var n := |acts| - 1;
      FindsBeforeDelete(acts, p, q)
      <==> FindsBeforeDelete(acts[..n], p, q)
           && (acts[n].Advance? && acts[n].job == q && Count(acts[..n], q) == 2 ==> Count(acts[..n], p) >= 1)
  {
    hide Count;
    var n := |acts| - 1;
    assert forall i :: 0 <= i < n ==> acts[..n][..i] == acts[..i] && acts[..n][i] == acts[i];
  }

  lemma NoDeleteYet(p: nat, q: nat)
    ensures FindsBeforeDelete([], p, q)
  {
  }

  lemma {:induction false} LateOfTwo(acts: seq<Act>, p: nat, q: nat)
    requires p != q
    ensures Late({p, q}, acts, p) <==> Count(acts, p) >= 1 && !FindsBeforeDelete(acts, p, q)
    ensures Count(acts, p) == 0 ==> (FindsBeforeDelete(acts, p, q) <==> Count(acts, q) < 3)
  {
    hide FindsBeforeDelete;
    if acts == [] {
      NoDeleteYet(p, q);
    } else {
      var n := |acts| - 1;
      LateOfTwo(acts[..n], p, q);
      FindsBeforeDeleteLast(acts, p, q);
    }
  }

  /**
   Two refreshes of one live token are both accepted if and only if each finds the record before
   the other deletes it. Otherwise exactly one is accepted, and the other raises an alarm.
   */
  lemma TwoRefreshes(sys: System, t: Token, acts: seq<Act>, p: nat, q: nat)
    requires Overlapping(sys, t, acts) && p != q && sys.jobs.Keys == {p, q}
    requires Count(acts, p) >= 4 && Count(acts, q) >= 4
    ensures var end := RunActs(sys, acts);
      var both := FindsBeforeDelete(acts, p, q) && FindsBeforeDelete(acts, q, p);
      && end.jobs.Keys == {p, q} && end.jobs[p].stage.Answered? && end.jobs[q].stage.Answered?
      && (end.jobs[p].stage.outcome.Issued? <==> FindsBeforeDelete(acts, p, q))
      && (end.jobs[q].stage.outcome.Issued? <==> FindsBeforeDelete(acts, q, p))
      && (end.jobs[p].stage.outcome.Issued? || end.jobs[q].stage.outcome.Issued?)
      && end.s.alarms[t.sub] == sys.s.alarms[t.sub] + (if both then 0 else 1)
      && (both ==> |Live(end.s, t.sub)| == |Live(sys.s, t.sub)| + 1)
  {
    hide Count, Late, FindsBeforeDelete, RunActs, RevokedAfter, Live, Overlapping;
    OverlapOutcome(sys, t, acts);
    LateOfTwo(acts, p, q);
    LateOfTwo(acts, q, p);
    assert {q, p} == {p, q};
    NotBothLate(acts, p, q);
    var jobs := sys.jobs.Keys;
    assert jobs == {p, q} && |jobs| == 2;
    assert LateOnes(jobs, acts) == if Late(jobs, acts, p) then {p} else if Late(jobs, acts, q) then {q} else {};
    assert Late(jobs, acts, p) <==> !FindsBeforeDelete(acts, p, q);
    assert Late(jobs, acts, q) <==> !FindsBeforeDelete(acts, q, p);
  }

  lemma {:induction false} NotBothLate(acts: seq<Act>, p: nat, q: nat)
    requires p != q
    ensures !(Late({p, q}, acts, p) && Late({p, q}, acts, q))
    ensures Late({p, q}, acts, p) ==> Count(acts, q) >= 3
    ensures Late({p, q}, acts, q) ==> Count(acts, p) >= 3
  {
    if acts != [] {
      NotBothLate(acts[..|acts| - 1], p, q);
    }
  }

  /** Two refreshes that both look first: one session has become two, and no alarm was raised. */
  lemma DoubleRefreshExample()
    ensures var t := Token(1, 0, 100);
      var s := State(map[1 := false], map[t := Record(1, 100)], {t}, 1, 100, multiset{});
      var p, q := Advance(0, 5), Advance(1, 5);
      var sys := System(s, map[0 := Job(t, Waiting), 1 := Job(t, Waiting)]);
      var end := RunActs(sys, [p, q, p, p, p, q, q, q]);
      && Overlapping(sys, t, [p, q, p, p, p, q, q, q])
      && end.s.records.Keys == {Token(1, 1, 105), Token(1, 2, 105)} && end.s.alarms == multiset{}
  {
    hide RunActs;
    var t := Token(1, 0, 100);
    var s := State(map[1 := false], map[t := Record(1, 100)], {t}, 1, 100, multiset{});
    var p, q := Advance(0, 5), Advance(1, 5);
    var sys := System(s, map[0 := Job(t, Waiting), 1 := Job(t, Waiting)]);
    assert [p, q, p, p, p, q, q, q] == [p, q, p, p] + [p, q, q, q];
    RunActsSplit(sys, [p, q, p, p], [p, q, q, q]);
    BothLook(s, t, 5);
    assert s.records - {t} == map[];
    OneAfterTheOther(s.(records := map[]), t, 5);
  }

  lemma BothLook(s: State, t: Token, now: int)
    requires t in s.issued && t in s.records && now < t.expires && now <= s.records[t].expiresAt && t.sub in s.users
    ensures var p, q := Advance(0, now), Advance(1, now);
      RunActs(System(s, map[0 := Job(t, Waiting), 1 := Job(t, Waiting)]), [p, q, p, p])
      == System(s.(records := s.records - {t}), map[0 := Job(t, RecordDeleted), 1 := Job(t, RecordFound)])
  {
    hide RunActs, Perform;
    var p, q := Advance(0, now), Advance(1, now);
    FourActs(System(s, map[0 := Job(t, Waiting), 1 := Job(t, Waiting)]), p, q, p, p);
    Pair(s, t, Waiting, Waiting, now);
    Pair(s, t, RecordFound, Waiting, now);
    Pair(s, t, RecordFound, RecordFound, now);
    Pair(s, t, UserFound, RecordFound, now);
  }

  lemma OneAfterTheOther(s: State, t: Token, now: int)
    requires t !in s.records && t.sub in s.users && t.jti < s.nextJti
    ensures var p, q := Advance(0, now), Advance(1, now);
      var (s', a) := IssueTokens(s, t.sub, now);
      var (s'', b) := IssueTokens(s', t.sub, now);
      RunActs(System(s, map[0 := Job(t, RecordDeleted), 1 := Job(t, RecordFound)]), [p, q, q, q])
      == System(s'', map[0 := Job(t, Answered(a)), 1 := Job(t, Answered(b))])
  {
    hide RunActs, Perform, NextStep, IssueTokens;
    var p, q := Advance(0, now), Advance(1, now);
    var (s', a) := IssueTokens(s, t.sub, now);
    StoresNext(s, t, now);
    RecordStaysGone(s, t, now);
    StoresNext(s', t, now);
    FourActs(System(s, map[0 := Job(t, RecordDeleted), 1 := Job(t, RecordFound)]), p, q, q, q);
    Pair(s, t, RecordDeleted, RecordFound, now);
    Pair(s', t, Answered(a), RecordFound, now);
    Pair(s', t, Answered(a), UserFound, now);
    Pair(s', t, Answered(a), RecordDeleted, now);
  }

  lemma RecordStaysGone(s: State, t: Token, now: int)
    requires t !in s.records && t.jti < s.nextJti
    ensures var s' := IssueTokens(s, t.sub, now).0; t !in s'.records && s'.users == s.users
  {
  }

  /** With the record gone, a refresh that has seen it deletes nothing and stores the next one all the same. */
  lemma StoresNext(s: State, t: Token, now: int)
    requires t !in s.records && t.sub in s.users
    ensures NextStep(s, t, RecordFound, now) == (s, UserFound)
    ensures NextStep(s, t, UserFound, now) == (s, RecordDeleted)
    ensures var (s', r) := IssueTokens(s, t.sub, now); NextStep(s, t, RecordDeleted, now) == (s', Answered(r))
    ensures forall r :: NextStep(s, t, Answered(r), now) == (s, Answered(r))
  {
    assert s.records - {t} == s.records;
  }

  lemma Pair(s: State, t: Token, first: Stage, second: Stage, now: int)
    ensures var sys := System(s, map[0 := Job(t, first), 1 := Job(t, second)]);
      var (s', first') := NextStep(s, t, first, now);
      var (s'', second') := NextStep(s, t, second, now);
      && Perform(sys, Advance(0, now)) == System(s', map[0 := Job(t, first'), 1 := Job(t, second)])
      && Perform(sys, Advance(1, now)) == System(s'', map[0 := Job(t, first), 1 := Job(t, second')])
  {
    hide NextStep;
  }
}
