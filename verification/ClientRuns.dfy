/**
 What the status history says over whole runs of edits and daily jobs, and when the promises of
 ClientHistory fail.
 */
module ClientRuns {
  import opened Wrappers
  import opened ProspectDue
  import opened ClientHistory

  // ---- the staleness query ----

  /** The query keeps a follow-up exactly when its newest date is before the cutoff. */
  lemma StaleIsNewestBeforeCutoff(c: Client, cutoff: int)
    ensures var newest := NewestContactDate(c.contactedAt, c.toRecontactAt);
      IsStale(c, cutoff) <==> c.status == FOLLOW_UP_2 && newest.Some? && newest.value < cutoff
  {
  }

  /**
   Every client the job moves was due for a week at least. One found within a week of its cutoff
   is not due again for five months.
   */
  lemma StaleWasDue(c: Client, now: int)
    requires IsStale(c, now - STALE_FOLLOW_UP_DAYS * DAY_MS)
    ensures var newest := NewestContactDate(c.contactedAt, c.toRecontactAt);
      && IsDue(c.status, newest, now - 7 * DAY_MS)
      && (newest.value > now - 28 * DAY_MS ==> !IsDue(RECONTACT_LATER, newest, now + 150 * DAY_MS))
  {
  }

  /** The job leaves no stale client, moves the stale ones and only them. */
  lemma JobMovesExactlyTheStale(s: State, cutoff: int, found: seq<Found>)
    requires FindsStale(s, cutoff, found)
    ensures var s' := Job(s, found);
      && s'.clients.Keys == s.clients.Keys
      && (forall id :: id in s.clients ==>
        s'.clients[id] ==
          if IsStale(s.clients[id], cutoff) then s.clients[id].(status := RECONTACT_LATER) else s.clients[id])
      && (forall id :: id in s'.clients ==> !IsStale(s'.clients[id], cutoff))
  {
    forall id | id in s.clients
      ensures IsStale(s.clients[id], cutoff) <==> exists i :: 0 <= i < |found| && found[i].id == id
    {
      if IsStale(s.clients[id], cutoff) {
        assert Found(id, s.clients[id].userId) in found;
      }
      if i :| 0 <= i < |found| && found[i].id == id {
        assert found[i] in found;
      }
    }
  }

  // ---- contacts along the cycle ----

  /** One contact edit per date, in order, with no status picked. */
  function Contact(s: State, id: int, userId: int, dates: seq<int>): State {
    if dates == [] then s
    else
      var n := |dates| - 1;
      Update(Contact(s, id, userId, dates[..n]), id, userId, Changes(Absent, Absent, Set(dates[n]), Absent)).0
  }

  ghost predicate StrictlyNewer(last: Option<int>, dates: seq<int>) {
    && (forall i :: 0 <= i < |dates| ==> last.None? || dates[i] > last.value)
    && (forall i, j :: 0 <= i < j < |dates| ==> dates[i] < dates[j])
  }

  /** n contacts with ever newer dates move the client exactly n steps along its cycle. */
  lemma {:induction false} ContactsStepTheCycle(s: State, id: int, userId: int, dates: seq<int>)
    requires id in s.clients && s.clients[id].userId == userId
    requires StrictlyNewer(s.clients[id].contactedAt, dates)
    ensures var s', before := Contact(s, id, userId, dates), s.clients[id];
      && s'.clients == s.clients[id := before.(
           status := AfterContacts(before.status, |dates|),
           contactedAt := if dates == [] then before.contactedAt else Some(dates[|dates| - 1]))]
  {
    if dates != [] {
      var n := |dates| - 1;
      ContactsStepTheCycle(s, id, userId, dates[..n]);
      OneMoreStep(s.clients[id].status, n);
    }
  }

  lemma OneMoreStep(status: ClientStatus, n: nat)
    ensures var at := AfterContacts(status, n);
      AfterContacts(status, n + 1) == if NextStatusAfterContact(at).Some? then NextStatusAfterContact(at).value else at
  {
  }

  /** Entry statuses are left for good after the first contact. */
  lemma EntryStatusNotReentered(status: ClientStatus, n: nat)
    requires n >= 1
    ensures AfterContacts(status, n) != TO_CONTACT && AfterContacts(status, n) != FORMER_CLIENT
    ensures NextStatusAfterContact(status).Some? ==> AfterContacts(status, n + 4) == AfterContacts(status, n)
  {
  }

  /**
   The client after an edit: a picked status wins; otherwise a newer contact date moves it one step
   along the cycle. Name and dates follow the edit, the owner stays, and so do all other clients.
   */
  lemma StatusAfterEdit(s: State, id: int, userId: int, changes: Changes)
    requires Update(s, id, userId, changes).1.Success?
    ensures var before, after := s.clients[id], Update(s, id, userId, changes).0.clients[id];
      var newer := changes.contactedAt.Set?
        && (before.contactedAt.None? || changes.contactedAt.value > before.contactedAt.value);
      && after.status == (
           if changes.status.Set? && changes.status.value != before.status then changes.status.value
           else if newer then AfterContacts(before.status, 1)
           else before.status)
      && (if changes.name == Absent then after.name == before.name else changes.name == Set(after.name))
      && Follows(before.contactedAt, changes.contactedAt, after.contactedAt)
      && Follows(before.toRecontactAt, changes.toRecontactAt, after.toRecontactAt)
      && after.userId == before.userId
      && Update(s, id, userId, changes).1 == Success(after)
      && Update(s, id, userId, changes).0.clients.Keys == s.clients.Keys
      && (forall other :: other in s.clients && other != id ==>
            Update(s, id, userId, changes).0.clients[other] == s.clients[other])
  {
  }

  /** A date after an edit: kept if left out, cleared by null, otherwise the one sent. */
  ghost predicate Follows(before: Option<int>, change: Change<int>, after: Option<int>) {
    && (change == Absent ==> after == before)
    && (change == Null ==> after == None)
    && (change.Set? ==> after == Some(change.value))
  }

  /** Which edits are refused, and that a refused one changes nothing. */
  lemma EditFailsExactly(s: State, id: int, userId: int, changes: Changes)
    ensures var (s', r) := Update(s, id, userId, changes);
      && (r == Failure(NotFound) <==> !(id in s.clients && s.clients[id].userId == userId))
      && (r == Failure(NullInColumn) <==>
            id in s.clients && s.clients[id].userId == userId && (changes.name == Null || changes.status == Null))
      && (r.Failure? ==> s' == s)
  {
  }

  /** An edit logs the changes it makes to the status and the contact date, in this order, and nothing else. */
  lemma EditLogsItsChanges(s: State, id: int, userId: int, changes: Changes)
    requires Update(s, id, userId, changes).1.Success?
    ensures var before, s' := s.clients[id], Update(s, id, userId, changes).0;
      var after := s'.clients[id];
      s'.history == s.history
        + (if after.status == before.status then [] else [StatusChanged(id, userId, before.status, after.status)])
        + (if after.contactedAt == before.contactedAt then []
           else [ContactedAtChanged(id, userId, before.contactedAt, after.contactedAt)])
  {
  }

  /** A client created and then deleted by its owner leaves only its id used up; nobody else can delete it. */
  lemma DeleteUndoesCreate(s: State, client: Client, userId: int)
    requires s.Valid()
    ensures var created := Create(s, client);
      && created.clients == s.clients[s.nextId := client]
      && Delete(created, s.nextId, userId)
         == if userId == client.userId then s.(nextId := s.nextId + 1) else created
  {
    hide WithoutClient;
    NoHistoryYet(s);
    NothingToDelete(s.history, s.nextId);
    assert s.clients[s.nextId := client] - {s.nextId} == s.clients;
  }

  lemma NoHistoryYet(s: State)
    requires s.Valid()
    ensures s.nextId !in s.clients && forall i :: 0 <= i < |s.history| ==> s.history[i].clientId != s.nextId
  {
    assert forall i :: 0 <= i < |s.history| ==> s.history[i] in s.history;
  }

  lemma {:induction false} NothingToDelete(history: seq<Entry>, id: int)
    requires forall i :: 0 <= i < |history| ==> history[i].clientId != id
    ensures WithoutClient(history, id) == history
  {
    if history != [] {
      var n := |history| - 1;
      NothingToDelete(history[..n], id);
      assert history == history[..n] + [history[n]];
    }
  }

  /** The edit repeats the stored status and carries a newer contact date of a client on the cycle. */
  predicate StepsOverPickedStatus(before: Client, changes: Changes) {
    && changes.status == Set(before.status)
    && changes.contactedAt.Set?
    && (before.contactedAt.None? || changes.contactedAt.value > before.contactedAt.value)
    && NextStatusAfterContact(before.status).Some?
  }

  /** Sending an edit twice is sending it once, except exactly then: the second send picks the old status again. */
  lemma ResendIsHarmlessUnless(s: State, id: int, userId: int, changes: Changes)
    requires Update(s, id, userId, changes).1.Success?
    ensures var once := Update(s, id, userId, changes).0;
      var twice := Update(once, id, userId, changes).0;
      && (twice == once <==> !StepsOverPickedStatus(s.clients[id], changes))
      && (twice != once ==>
        && once.clients[id].status == NextStatusAfterContact(s.clients[id].status).value
        && twice.clients[id].status == s.clients[id].status)
  {
    var once := Update(s, id, userId, changes).0;
    var twice := Update(once, id, userId, changes).0;
    if !StepsOverPickedStatus(s.clients[id], changes) {
      assert twice.clients == once.clients;
      assert twice.history == once.history;
    }
  }

  /** A concrete edit that is not harmless to send twice. */
  lemma ResendExample()
    ensures var client := Client(1, "Acme", CONTACTED, Some(0), None);
      var s := State(map[3 := client], [], 4);
      var changes := Changes(Absent, Set(CONTACTED), Set(5), Absent);
      var once := Update(s, 3, 1, changes).0;
      var twice := Update(once, 3, 1, changes).0;
      once.clients[3].status == FOLLOW_UP_1 && twice.clients[3].status == CONTACTED
  {
  }

  // ---- replaying the history ----

  function HistoryOf(history: seq<Entry>, id: int): seq<Entry> {
    if history == [] then []
    else
      var n := |history| - 1;
      HistoryOf(history[..n], id) + (if history[n].clientId == id then [history[n]] else [])
  }

  /** Follow the from/to chain; it breaks on a wrong `from` and on a change to the same status. */
  function ReplayStatus(start: ClientStatus, entries: seq<Entry>): Option<ClientStatus> {
    if entries == [] then Some(start)
    else
      var n := |entries| - 1;
      var at := ReplayStatus(start, entries[..n]);
      match entries[n]
      case StatusChanged(_, _, from_, to_) => if at == Some(from_) && from_ != to_ then Some(to_) else None
      case ContactedAtChanged(_, _, _, _) => at
  }

  function ReplayDate(start: Option<int>, entries: seq<Entry>): Option<Option<int>> {
    if entries == [] then Some(start)
    else
      var n := |entries| - 1;
      var at := ReplayDate(start, entries[..n]);
      match entries[n]
      case StatusChanged(_, _, _, _) => at
      case ContactedAtChanged(_, _, from_, to_) => if at == Some(from_) && from_ != to_ then Some(to_) else None
  }

  /** The entries client `id` gained between two states. */
  function Gained(before: State, after: State, id: int): seq<Entry>
    requires HistoryOf(before.history, id) <= HistoryOf(after.history, id)
  {
    HistoryOf(after.history, id)[|HistoryOf(before.history, id)|..]
  }

  /** The new entries of the client form an unbroken chain from its old status and date to its new ones. */
  ghost predicate Explained(before: State, after: State, id: int) {
    && id in before.clients && id in after.clients
    && HistoryOf(before.history, id) <= HistoryOf(after.history, id)
    && ReplayStatus(before.clients[id].status, Gained(before, after, id)) == Some(after.clients[id].status)
    && ReplayDate(before.clients[id].contactedAt, Gained(before, after, id)) == Some(after.clients[id].contactedAt)
  }

  lemma {:induction false} HistoryOfAppended(a: seq<Entry>, b: seq<Entry>, id: int)
    ensures HistoryOf(a + b, id) == HistoryOf(a, id) + HistoryOf(b, id)
  {
    if b == [] {
      assert a + b == a;
    } else {
      var n := |b| - 1;
      assert (a + b)[..|a| + n] == a + b[..n];
      HistoryOfAppended(a, b[..n], id);
    }
  }

  lemma {:induction false} HistoryOfOther(history: seq<Entry>, id: int, other: int)
    requires id != other
    ensures HistoryOf(WithoutClient(history, other), id) == HistoryOf(history, id)
  {
    if history != [] {
      var n := |history| - 1;
      HistoryOfOther(history[..n], id, other);
      var kept := if history[n].clientId == other then [] else [history[n]];
      HistoryOfAppended(WithoutClient(history[..n], other), kept, id);
      assert [history[n]][..0] == [];
      assert HistoryOf([history[n]], id) == if history[n].clientId == id then [history[n]] else [];
    }
  }

  lemma {:induction false} ReplayAppended(start: ClientStatus, a: seq<Entry>, b: seq<Entry>)
    ensures ReplayStatus(start, a + b)
         == if ReplayStatus(start, a).Some? then ReplayStatus(ReplayStatus(start, a).value, b)
            else None
  {
    if b == [] {
      assert a + b == a;
    } else {
      var n := |b| - 1;
      assert (a + b)[..|a| + n] == a + b[..n];
      ReplayAppended(start, a, b[..n]);
    }
  }

  lemma {:induction false} ReplayDateAppended(start: Option<int>, a: seq<Entry>, b: seq<Entry>)
    requires ReplayDate(start, a).Some?
    ensures ReplayDate(start, a + b) == ReplayDate(ReplayDate(start, a).value, b)
  {
    if b == [] {
      assert a + b == a;
    } else {
      var n := |b| - 1;
      assert (a + b)[..|a| + n] == a + b[..n];
      ReplayDateAppended(start, a, b[..n]);
    }
  }

  lemma ExplainedTransitive(a: State, b: State, c: State, id: int)
    requires Explained(a, b, id) && Explained(b, c, id)
    ensures Explained(a, c, id)
    ensures Gained(a, c, id) == Gained(a, b, id) + Gained(b, c, id)
  {
    hide HistoryOf, ReplayStatus, ReplayDate;
    assert Gained(a, c, id) == Gained(a, b, id) + Gained(b, c, id);
    ReplayAppended(a.clients[id].status, Gained(a, b, id), Gained(b, c, id));
    ReplayDateAppended(a.clients[id].contactedAt, Gained(a, b, id), Gained(b, c, id));
  }

  // ---- one request ----

  datatype Event =
    | EditClient(id: int, userId: int, changes: Changes)
    | CreateClient(client: Client)
    | DeleteClient(id: int, userId: int)
    | DailyJob(cutoff: int, found: seq<Found>)

  function Apply(s: State, e: Event): State {
    match e
    case EditClient(id, userId, changes) => Update(s, id, userId, changes).0
    case CreateClient(client) => Create(s, client)
    case DeleteClient(id, userId) => Delete(s, id, userId)
    case DailyJob(_, found) => Job(s, found)
  }

  /** A daily job works on what the query finds. */
  ghost predicate Honest(s: State, e: Event) {
    e.DailyJob? ==> FindsStale(s, e.cutoff, e.found)
  }

  lemma HistoryOfOne(e: Entry, id: int)
    ensures HistoryOf([e], id) == if e.clientId == id then [e] else []
  {
    assert [e][..0] == [];
  }

  lemma ReplayOne(start: ClientStatus, date: Option<int>, e: Entry)
    ensures ReplayStatus(start, [e])
         == if e.ContactedAtChanged? then Some(start)
            else if e.fromStatus == start && e.toStatus != start then Some(e.toStatus) else None
    ensures ReplayDate(date, [e])
         == if e.StatusChanged? then Some(date)
            else if e.fromDate == date && e.toDate != date then Some(e.toDate) else None
  {
    assert [e][..0] == [];
  }

  lemma NoHistory(id: int, start: ClientStatus, date: Option<int>)
    ensures HistoryOf([], id) == [] && ReplayStatus(start, []) == Some(start) && ReplayDate(date, []) == Some(date)
  {
  }

  /** What a state owes a client that gained exactly `added` and was not deleted. */
  lemma ExplainedBy(before: State, after: State, id: int, added: seq<Entry>)
    requires id in before.clients && id in after.clients
    requires HistoryOf(after.history, id) == HistoryOf(before.history, id) + added
    requires ReplayStatus(before.clients[id].status, added) == Some(after.clients[id].status)
    requires ReplayDate(before.clients[id].contactedAt, added) == Some(after.clients[id].contactedAt)
    ensures Explained(before, after, id) && Gained(before, after, id) == added
  {
  }

  lemma Unmentioned(before: State, after: State, id: int)
    requires id in before.clients && id in after.clients
    requires HistoryOf(after.history, id) == HistoryOf(before.history, id)
    requires after.clients[id].status == before.clients[id].status
    requires after.clients[id].contactedAt == before.clients[id].contactedAt
    ensures Explained(before, after, id)
  {
    NoHistory(id, before.clients[id].status, before.clients[id].contactedAt);
    ExplainedBy(before, after, id, []);
  }

  lemma EditExplained(s: State, edited: int, userId: int, changes: Changes, id: int)
    requires id in s.clients
    ensures Explained(s, Update(s, edited, userId, changes).0, id)
  {
    hide HistoryOf, StatusEntries, DateEntries, SteppedStatus, Explained, ReplayStatus, ReplayDate;
    var s' := Update(s, edited, userId, changes).0;
    if !Update(s, edited, userId, changes).1.Success? {
      Unmentioned(s, s', id);
    } else {
      var before := s.clients[edited];
      var input := changes.(status := SteppedStatus(before, changes));
      var a, b := StatusEntries(edited, userId, before, input), DateEntries(edited, userId, before, input);
      HistoryOfAppended(s.history + a, b, id);
      HistoryOfAppended(s.history, a, id);
      EditEntries(edited, userId, before, input, id);
      assert s'.history == s.history + a + b;
      if id != edited {
        Unmentioned(s, s', id);
      } else {
        assert HistoryOf(s'.history, id) == HistoryOf(s.history, id) + (a + b);
        ExplainedBy(s, s', id, a + b);
      }
    }
  }

  lemma EditEntries(edited: int, userId: int, before: Client, input: Changes, id: int)
    requires !input.status.Null?
    ensures var a, b := StatusEntries(edited, userId, before, input), DateEntries(edited, userId, before, input);
      && HistoryOf(a, id) == (if id == edited then a else [])
      && HistoryOf(b, id) == (if id == edited then b else [])
      && ReplayStatus(before.status, a + b) == Some(Stored(before, input).status)
      && ReplayDate(before.contactedAt, a + b) == Some(Stored(before, input).contactedAt)
  {
    var a, b := StatusEntries(edited, userId, before, input), DateEntries(edited, userId, before, input);
    NoHistory(id, before.status, before.contactedAt);
    if a != [] {
      HistoryOfOne(a[0], id);
      ReplayOne(before.status, before.contactedAt, a[0]);
    }
    var status := Stored(before, input).status;
    NoHistory(id, status, before.contactedAt);
    if b != [] {
      HistoryOfOne(b[0], id);
      ReplayOne(status, before.contactedAt, b[0]);
    }
    ReplayAppended(before.status, a, b);
    ReplayDateAppended(before.contactedAt, a, b);
  }

  /** A promoted client's part of the job's log: its one entry, or none if it was not found. */
  lemma {:induction false} HistoryOfPromotions(found: seq<Found>, id: int)
    requires forall i, j :: 0 <= i < j < |found| ==> found[i].id != found[j].id
    ensures forall i :: 0 <= i < |found| && found[i].id == id ==>
      HistoryOf(Promotions(found), id) == [StatusChanged(id, found[i].userId, FOLLOW_UP_2, RECONTACT_LATER)]
    ensures (forall i :: 0 <= i < |found| ==> found[i].id != id) ==> HistoryOf(Promotions(found), id) == []
  {
    if found != [] {
      var n := |found| - 1;
      assert Promotions(found)[..n] == Promotions(found[..n]);
      HistoryOfPromotions(found[..n], id);
    }
  }

  lemma JobExplained(s: State, cutoff: int, found: seq<Found>, id: int)
    requires FindsStale(s, cutoff, found) && id in s.clients
    ensures Explained(s, Job(s, found), id)
  {
    hide HistoryOf, Explained, ReplayStatus, ReplayDate, Promotions;
    var s' := Job(s, found);
    JobMovesExactlyTheStale(s, cutoff, found);
    forall i | 0 <= i < |found|
      ensures found[i].id in s.clients
    {
      assert found[i] in found;
    }
    assert s'.history == s.history + Promotions(found);
    HistoryOfAppended(s.history, Promotions(found), id);
    HistoryOfPromotions(found, id);
    var c := s.clients[id];
    if i :| 0 <= i < |found| && found[i].id == id {
      assert found[i] in found;
      var e := StatusChanged(id, found[i].userId, FOLLOW_UP_2, RECONTACT_LATER);
      ReplayOne(c.status, c.contactedAt, e);
      ExplainedBy(s, s', id, [e]);
    } else {
      assert IsStale(c, cutoff) ==> Found(id, c.userId) in found;
      Unmentioned(s, s', id);
    }
  }

  lemma ApplyExplained(s: State, e: Event, id: int)
    requires s.Valid() && Honest(s, e) && id in s.clients && id in Apply(s, e).clients
    ensures Explained(s, Apply(s, e), id)
  {
    hide HistoryOf, Explained, Update, Job, WithoutClient;
    match e {
      case EditClient(edited, userId, changes) => EditExplained(s, edited, userId, changes, id);
      case CreateClient(client) => Unmentioned(s, Apply(s, e), id);
      case DeleteClient(deleted, userId) =>
        if id != deleted {
          HistoryOfOther(s.history, id, deleted);
        }
        Unmentioned(s, Apply(s, e), id);
      case DailyJob(cutoff, found) => JobExplained(s, cutoff, found, id);
    }
  }

  /** Ids are not reused, and every entry speaks of a client that exists and is signed by its owner. */
  lemma ApplyKeepsValid(s: State, e: Event)
    requires s.Valid() && Honest(s, e)
    ensures Apply(s, e).Valid() && s.nextId <= Apply(s, e).nextId
    ensures forall id :: id in Apply(s, e).clients && id < s.nextId ==> id in s.clients
  {
    match e {
      case EditClient(_, _, _) => {}
      case CreateClient(_) => {}
      case DeleteClient(id, _) => WithoutClientIsExact(s.history, id);
      case DailyJob(_, found) =>
        forall i | 0 <= i < |found|
          ensures found[i].id in s.clients
        {
          assert found[i] in found;
        }
    }
  }

  lemma {:induction false} WithoutClientIsExact(history: seq<Entry>, id: int)
    ensures forall e :: e in WithoutClient(history, id) <==> e in history && e.clientId != id
  {
    if history != [] {
      var n := |history| - 1;
      WithoutClientIsExact(history[..n], id);
      assert history == history[..n] + [history[n]];
    }
  }

  // ---- serial runs ----

  function Run(s: State, events: seq<Event>): State {
    if events == [] then s else Apply(Run(s, events[..|events| - 1]), events[|events| - 1])
  }

  ghost predicate HonestRun(s: State, events: seq<Event>) {
    forall i :: 0 <= i < |events| ==> Honest(Run(s, events[..i]), events[i])
  }

  lemma {:induction false} RunKeepsValid(s: State, events: seq<Event>)
    requires s.Valid() && HonestRun(s, events)
    ensures Run(s, events).Valid() && s.nextId <= Run(s, events).nextId
    ensures forall id :: id in Run(s, events).clients && id < s.nextId ==> id in s.clients
  {
    hide Apply, Honest;
    if events != [] {
      var n := |events| - 1;
      HonestPrefix(s, events);
      RunKeepsValid(s, events[..n]);
      ApplyKeepsValid(Run(s, events[..n]), events[n]);
    }
  }

  lemma HonestPrefix(s: State, events: seq<Event>)
    requires events != [] && HonestRun(s, events)
    ensures var n := |events| - 1;
      HonestRun(s, events[..n]) && Honest(Run(s, events[..n]), events[n])
  {
    hide Honest, Run;
    var n := |events| - 1;
    forall i | 0 <= i < n
      ensures Honest(Run(s, events[..n][..i]), events[..n][i])
    {
      assert events[..n][..i] == events[..i];
    }
  }

  /**
   Over any run of edits, creations, deletions and daily jobs, the new history of a client that
   is still there is an unbroken chain, without self-loops, from its status and contact date at
   the start to those stored at the end. (For a client created on the way, the run from its
   creation on is such a run.)
   */
  lemma {:induction false} HistoryExplainsRun(s: State, events: seq<Event>, id: int)
    requires s.Valid() && HonestRun(s, events)
    requires id in s.clients && id in Run(s, events).clients
    ensures Explained(s, Run(s, events), id)
  {
    hide Apply, Honest, Explained, HistoryOf;
    if events == [] {
      Unmentioned(s, s, id);
    } else {
      var n := |events| - 1;
      var before := Run(s, events[..n]);
      HonestPrefix(s, events);
      RunKeepsValid(s, events[..n]);
      ApplyKeepsValid(before, events[n]);
      HistoryExplainsRun(s, events[..n], id);
      ApplyExplained(before, events[n], id);
      ExplainedTransitive(s, before, Apply(before, events[n]), id);
    }
  }
}
