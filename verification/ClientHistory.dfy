/**
 Client updates, the daily job that promotes stale follow-ups, and the status history they write
 (`src/clients/clients.service.ts`, `src/clients/prospect-cron.service.ts`, on the tables of
 `src/clients/repositories/prisma8-client.repository.ts`).
 */
module ClientHistory {
  import opened Wrappers
  import opened ProspectDue

  const STALE_FOLLOW_UP_DAYS := 21

  datatype Client =
    Client(userId: int, name: string, status: ClientStatus, contactedAt: Option<int>, toRecontactAt: Option<int>)

  /** A field of an edit: left out, null, or a value. */
  datatype Change<+T> = Absent | Null | Set(value: T)

  datatype Changes =
    Changes(name: Change<string>, status: Change<ClientStatus>, contactedAt: Change<int>, toRecontactAt: Change<int>)

  datatype Entry =
    | StatusChanged(clientId: int, userId: int, fromStatus: ClientStatus, toStatus: ClientStatus)
    | ContactedAtChanged(clientId: int, userId: int, fromDate: Option<int>, toDate: Option<int>)

  datatype State = State(clients: map<int, Client>, history: seq<Entry>, nextId: int) {
    ghost predicate Valid() {
      && (forall id :: id in clients ==> id < nextId)
      && (forall e :: e in history ==> e.clientId in clients && e.userId == clients[e.clientId].userId)
    }
  }

  /** `NullInColumn`: the database refuses null for a required column. */
  datatype ClientError = NotFound | NullInColumn

  // ---- one edit ----

  function SteppedStatus(before: Client, input: Changes): Change<ClientStatus> {
    var stored := before.status;
    var picked := input.status != Absent && input.status != Set(stored);
    if picked || !input.contactedAt.Set? then input.status
    else
      var newer := before.contactedAt.None? || input.contactedAt.value > before.contactedAt.value;
      if !newer then input.status
      else
        match NextStatusAfterContact(stored)
        case Some(next) => Set(next)
        case None => input.status
  }

  function DateAfter(before: Option<int>, change: Change<int>): Option<int> {
    match change
    case Absent => before
    case Null => None
    case Set(date) => Some(date)
  }

  function Stored(before: Client, input: Changes): Client {
    before.(
      name := if input.name.Set? then input.name.value else before.name,
      status := if input.status.Set? then input.status.value else before.status,
      contactedAt := DateAfter(before.contactedAt, input.contactedAt),
      toRecontactAt := DateAfter(before.toRecontactAt, input.toRecontactAt))
  }

  function StatusEntries(id: int, userId: int, before: Client, input: Changes): seq<Entry> {
    if input.status.Set? && input.status.value != before.status
    then [StatusChanged(id, userId, before.status, input.status.value)]
    else []
  }

  function DateEntries(id: int, userId: int, before: Client, input: Changes): seq<Entry> {
    var after := DateAfter(before.contactedAt, input.contactedAt);
    if input.contactedAt != Absent && after != before.contactedAt
    then [ContactedAtChanged(id, userId, before.contactedAt, after)]
    else []
  }

  function Update(s: State, id: int, userId: int, changes: Changes): (State, Result<Client, ClientError>) {
    if id !in s.clients || s.clients[id].userId != userId then (s, Failure(NotFound))
    else
      var before := s.clients[id];
      var input := changes.(status := SteppedStatus(before, changes));
      if input.name.Null? || input.status.Null? then (s, Failure(NullInColumn))
      else
        var client := Stored(before, input);
        (s.(clients := s.clients[id := client],
            history := s.history + StatusEntries(id, userId, before, input) + DateEntries(id, userId, before, input)),
         Success(client))
  }

  function Create(s: State, client: Client): State {
    s.(clients := s.clients[s.nextId := client], nextId := s.nextId + 1)
  }

  function WithoutClient(history: seq<Entry>, id: int): seq<Entry> {
    if history == [] then []
    else
      var n := |history| - 1;
      WithoutClient(history[..n], id) + (if history[n].clientId == id then [] else [history[n]])
  }

  /** Deleting a client cascades to its history. */
  function Delete(s: State, id: int, userId: int): State {
    if id !in s.clients || s.clients[id].userId != userId then s
    else s.(clients := s.clients - {id}, history := WithoutClient(s.history, id))
  }

  // ---- the daily job, in its three database steps ----

  datatype SqlBool = True | False | Unknown

  function SqlLess(date: Option<int>, cutoff: int): SqlBool {
    match date
    case None => Unknown
    case Some(d) => if d < cutoff then True else False
  }

  function SqlIsNull(date: Option<int>): SqlBool {
    if date.None? then True else False
  }

  function SqlOr(a: SqlBool, b: SqlBool): SqlBool {
    if a.True? || b.True? then True else if a.False? && b.False? then False else Unknown
  }

  function SqlAnd(a: SqlBool, b: SqlBool): SqlBool {
    if a.False? || b.False? then False else if a.True? && b.True? then True else Unknown
  }

  /** The WHERE clauses of `findStaleFollowUpClientIds`; a row is kept when they are True. */
  predicate IsStale(c: Client, cutoff: int) {
    && c.status == FOLLOW_UP_2
    && SqlOr(SqlLess(c.contactedAt, cutoff), SqlLess(c.toRecontactAt, cutoff)).True?
    && SqlAnd(SqlOr(SqlIsNull(c.contactedAt), SqlLess(c.contactedAt, cutoff)),
              SqlOr(SqlIsNull(c.toRecontactAt), SqlLess(c.toRecontactAt, cutoff))).True?
  }

  /** A client found stale, with the user it had. */
  datatype Found = Found(id: int, userId: int)

  /** `found` lists the stale clients, each once, in any order. */
  ghost predicate FindsStale(s: State, cutoff: int, found: seq<Found>) {
    && (forall f :: f in found <==>
          f.id in s.clients && IsStale(s.clients[f.id], cutoff) && f.userId == s.clients[f.id].userId)
    && (forall i, j :: 0 <= i < j < |found| ==> found[i].id != found[j].id)
  }

  /** `promoteClients`: every listed client that still exists, whatever its status by now. */
  function Promote(s: State, found: seq<Found>): State {
    s.(clients := map id | id in s.clients ::
         if exists i :: 0 <= i < |found| && found[i].id == id
         then s.clients[id].(status := RECONTACT_LATER)
         else s.clients[id])
  }

  function Promotions(found: seq<Found>): seq<Entry> {
    seq(|found|, i requires 0 <= i < |found| =>
      StatusChanged(found[i].id, found[i].userId, FOLLOW_UP_2, RECONTACT_LATER))
  }

  /** `logMany`: one insert; if a listed client is gone its foreign key fails and nothing is logged. */
  function LogPromotions(s: State, found: seq<Found>): State {
    if forall i :: 0 <= i < |found| ==> found[i].id in s.clients
    then s.(history := s.history + Promotions(found))
    else s
  }

  function Job(s: State, found: seq<Found>): State {
    LogPromotions(Promote(s, found), found)
  }

  // ---- the services ----

  class ClientsService {
    var clients: map<int, Client>
    var history: seq<Entry>
    var nextId: int

    ghost function Current(): State
      reads this
    {
      State(clients, history, nextId)
    }

    method UpdateClient(id: int, userId: int, changes: Changes) returns (r: Result<Client, ClientError>)
      modifies this
      ensures (Current(), r) == Update(old(Current()), id, userId, changes)
    {
      if id !in clients || clients[id].userId != userId {
        return Failure(NotFound);
      }
      var before := clients[id];
      var input := changes.(status := SteppedStatus(before, changes));
      if input.name.Null? || input.status.Null? {
        return Failure(NullInColumn);
      }
      var client := Stored(before, input);
      clients := clients[id := client];
      if input.status.Set? && input.status.value != before.status {
        history := history + [StatusChanged(id, userId, before.status, input.status.value)];
      }
      if input.contactedAt != Absent {
        var after := DateAfter(before.contactedAt, input.contactedAt);
        if after != before.contactedAt {
          history := history + [ContactedAtChanged(id, userId, before.contactedAt, after)];
        }
      }
      assert history ==
        old(history) + StatusEntries(id, userId, before, input) + DateEntries(id, userId, before, input);
      return Success(client);
    }

    /** `found` is the database's answer to the query for stale follow-ups. */
    method PromoteStaleFollowUps(now: int, found: seq<Found>)
      requires FindsStale(Current(), now - STALE_FOLLOW_UP_DAYS * DAY_MS, found)
      modifies this
      ensures Current() == Job(old(Current()), found)
    {
      if |found| == 0 {
        assert Promote(Current(), found).clients == clients;
        return;
      }
      clients := Promote(State(clients, history, nextId), found).clients;
      history := LogPromotions(State(clients, history, nextId), found).history;
    }
  }
}
