/**
 Cursor pages of the audit log (`src/audit/audit.service.ts`), the log they read, and the
 nightly purge that runs beside them (`src/common/cleanup/cleanup.service.ts`).
 */
module AuditPages {
  import opened Wrappers

  datatype Entry = Entry(id: int, userId: int, action: string, resource: string, createdAt: int)

  /** The rows in id order, and the next value of the id sequence. */
  datatype Log = Log(rows: seq<Entry>, nextId: int) {
    ghost predicate Valid() {
      && 1 <= nextId
      && (forall i :: 0 <= i < |rows| ==> 1 <= rows[i].id < nextId)
      && Ascending(rows)
    }
  }

  ghost predicate Ascending(rows: seq<Entry>) {
    forall i, j :: 0 <= i < j < |rows| ==> rows[i].id < rows[j].id
  }

  ghost predicate Descending(items: seq<Entry>) {
    forall i, j :: 0 <= i < j < |items| ==> items[i].id > items[j].id
  }

  /** `where({ userId })` (no filter when undefined) and `where(id < cursor)`. */
  predicate Selected(e: Entry, userId: Option<int>, cursor: Option<int>) {
    && (userId.Some? ==> e.userId == userId.value)
    && (cursor.Some? ==> e.id < cursor.value)
  }

  /** The selected rows by descending id, without a limit. */
  function Listing(rows: seq<Entry>, userId: Option<int>, cursor: Option<int>): (all: seq<Entry>)
  {
    if rows == [] then []
    else
      var last := rows[|rows| - 1];
      (if Selected(last, userId, cursor) then [last] else []) + Listing(rows[..|rows| - 1], userId, cursor)
  }

  /** `NegativeLimit`: PostgreSQL refuses the query. `NoLastItem`: reading the id of the last of no items. */
  datatype PageError = NegativeLimit | NoLastItem

  datatype Page = Page(items: seq<Entry>, nextCursor: Option<int>)

  function FindAll(log: Log, userId: Option<int>, cursor: Option<int>, limit: int): Result<Page, PageError> {
    if limit + 1 < 0 then Failure(NegativeLimit)
    else
      var all := Listing(log.rows, userId, cursor);
      var rows := if limit + 1 < |all| then all[..limit + 1] else all;
      var hasMore := |rows| > limit;
      // rows.slice(0, -1) of the empty page a limit of -1 fetches is still empty
      var items := if hasMore then rows[..if limit < 0 then 0 else limit] else rows;
      if !hasMore then Success(Page(items, None))
      else if items == [] then Failure(NoLastItem)
      else Success(Page(items, Some(items[|items| - 1].id)))
  }

  // ---- what may happen to the log between two fetches ----

  /** New rows take ids from the sequence; old rows may be purged but never change or come back. */
  ghost predicate Evolves(before: Log, after: Log) {
    && before.nextId <= after.nextId
    && (forall e :: e in after.rows && e.id < before.nextId ==> e in before.rows)
  }

  ghost predicate Appends(before: Log, after: Log) {
    && before.nextId <= after.nextId
    && before.rows <= after.rows
    && forall i :: |before.rows| <= i < |after.rows| ==> after.rows[i].id >= before.nextId
  }

  class AuditLog {
    var log: Log
    var users: set<int>

    /** Never throws: the insert fails for a user who is gone, and then only its id is used up. */
    method Record(userId: int, action: string, resource: string, now: int)
      requires log.Valid()
      modifies this`log
      ensures log.Valid() && Appends(old(log), log) && Evolves(old(log), log)
      ensures log.nextId == old(log).nextId + 1
      ensures log.rows == old(log).rows
        + if userId in users then [Entry(old(log).nextId, userId, action, resource, now)] else []
    {
      var id := log.nextId;
      log := log.(nextId := id + 1);
      if userId in users {
        log := log.(rows := log.rows + [Entry(id, userId, action, resource, now)]);
      }
    }

    method PurgeOld(cutoff: int)
      requires log.Valid()
      modifies this`log
      ensures log.Valid() && Evolves(old(log), log) && log.nextId == old(log).nextId
      ensures forall e :: e in log.rows <==> e in old(log).rows && e.createdAt >= cutoff
    {
      var kept := KeepRecent(log.rows, cutoff);
      KeepRecentInOrder(log.rows, cutoff);
      assert forall i :: 0 <= i < |kept| ==> kept[i] in log.rows;
      log := log.(rows := kept);
    }
  }

  function KeepRecent(rows: seq<Entry>, cutoff: int): (kept: seq<Entry>)
    ensures forall e :: e in kept <==> e in rows && e.createdAt >= cutoff
  {
    if rows == [] then []
    else
      var last := rows[|rows| - 1];
      assert rows == rows[..|rows| - 1] + [last];
      KeepRecent(rows[..|rows| - 1], cutoff) + (if last.createdAt < cutoff then [] else [last])
  }

  lemma {:induction false} KeepRecentInOrder(rows: seq<Entry>, cutoff: int)
    requires Ascending(rows)
    ensures Ascending(KeepRecent(rows, cutoff))
  {
    if rows != [] {
      var front, last := rows[..|rows| - 1], rows[|rows| - 1];
      KeepRecentInOrder(front, cutoff);
      var kept := KeepRecent(front, cutoff);
      forall i | 0 <= i < |kept|
        ensures kept[i].id < last.id
      {
        assert kept[i] in front;
      }
    }
  }

  // ---- the listing ----

  lemma {:induction false} ListingIsExact(rows: seq<Entry>, userId: Option<int>, cursor: Option<int>)
    requires Ascending(rows)
    ensures Descending(Listing(rows, userId, cursor))
    ensures forall e :: e in Listing(rows, userId, cursor) <==> e in rows && Selected(e, userId, cursor)
  {
    if rows != [] {
      var front, last := rows[..|rows| - 1], rows[|rows| - 1];
      ListingIsExact(front, userId, cursor);
      assert rows == front + [last];
      forall e | e in Listing(front, userId, cursor)
        ensures e.id < last.id
      {
        assert e in front;
      }
    }
  }

  /** The filters, spelt out: rows of the user asked for, if any, with ids below the cursor, if any. */
  lemma ListedExactly(rows: seq<Entry>, userId: Option<int>, cursor: Option<int>, e: Entry)
    requires Ascending(rows)
    ensures e in Listing(rows, userId, cursor)
        <==> e in rows && (userId == None || userId == Some(e.userId)) && (cursor == None || e.id < cursor.value)
  {
    ListingIsExact(rows, userId, cursor);
  }

  /** Descending lists with the same members are the same list. */
  lemma {:induction false} DescendingUnique(a: seq<Entry>, b: seq<Entry>)
    requires Descending(a) && Descending(b)
    requires forall e :: e in a <==> e in b
    ensures a == b
  {
    assert b != [] ==> b[0] in b;
    if a != [] {
      assert a[0] in b && b[0] in a;
      assert a[0] == b[0];
      var s, t := a[1..], b[1..];
      forall e
        ensures e in s <==> e in t
      {
        if e in s {
          assert e in a && e.id < a[0].id;
        }
        if e in t {
          assert e in b && e.id < b[0].id;
        }
      }
      DescendingUnique(s, t);
    }
  }

  /** Continuing below the last item of a page lists exactly the rest. */
  lemma ListingBelow(rows: seq<Entry>, userId: Option<int>, cursor: Option<int>, k: nat)
    requires Ascending(rows)
    requires 1 <= k <= |Listing(rows, userId, cursor)|
    ensures var all := Listing(rows, userId, cursor);
      Listing(rows, userId, Some(all[k - 1].id)) == all[k..]
  {
    var all := Listing(rows, userId, cursor);
    var last := all[k - 1];
    ListingIsExact(rows, userId, cursor);
    ListingIsExact(rows, userId, Some(last.id));
    assert last in all;
    forall e
      ensures e in Listing(rows, userId, Some(last.id)) <==> e in all[k..]
    {
      if e in all && e.id < last.id {
        var i :| 0 <= i < |all| && all[i] == e;
        assert i >= k;
        assert all[k..][i - k] == e;
      }
      if e in all[k..] {
        var i :| 0 <= i < |all[k..]| && all[k..][i] == e;
        assert all[k + i] == e && e in all;
      }
    }
    DescendingUnique(Listing(rows, userId, Some(last.id)), all[k..]);
  }

  // ---- one page ----

  /**
   `findAll` throws exactly for a negative limit, and for limit 0 when some row is selected. Below -1
   the database refuses the limit; otherwise the id of the last of no items is read.
   */
  lemma FindAllThrows(log: Log, userId: Option<int>, cursor: Option<int>, limit: int)
    requires log.Valid()
    ensures FindAll(log, userId, cursor, limit).Failure?
        <==> limit < 0 || (limit == 0 && exists e :: e in log.rows && Selected(e, userId, cursor))
    ensures FindAll(log, userId, cursor, limit) == Failure(NegativeLimit) <==> limit < -1
  {
    hide Listing;
    ListingIsExact(log.rows, userId, cursor);
    var all := Listing(log.rows, userId, cursor);
    if all != [] {
      assert all[0] in all;
    }
    if limit >= 1 {
      PageIsPrefix(log, userId, cursor, limit);
    }
  }

  /** One row and a limit of 0 or -1: the id of the last of no items is read. */
  lemma FindAllThrowsExample()
    ensures var log := Log([Entry(1, 7, "LOGIN", "auth", 0)], 2);
      && log.Valid()
      && FindAll(log, None, None, 0) == Failure(NoLastItem)
      && FindAll(log, None, None, -1) == Failure(NoLastItem)
  {
    var log := Log([Entry(1, 7, "LOGIN", "auth", 0)], 2);
    assert log.rows[..0] == [];
    assert Listing(log.rows, None, None) == [log.rows[0]];
  }

  lemma PageIsPrefix(log: Log, userId: Option<int>, cursor: Option<int>, limit: int)
    requires limit >= 1
    ensures var all := Listing(log.rows, userId, cursor);
      FindAll(log, userId, cursor, limit) == Success(
        if |all| <= limit then Page(all, None) else Page(all[..limit], Some(all[limit - 1].id)))
  {
    var all := Listing(log.rows, userId, cursor);
    if limit + 1 < |all| {
      assert all[..limit + 1][..limit] == all[..limit];
    }
  }

  // ---- the walk ----

  ghost predicate History(env: nat -> Log) {
    && (forall k: nat :: env(k).Valid())
    && (forall k: nat :: Evolves(env(k), env(k + 1)))
  }

  /** A cursor handed out by fetch k - 1 is the id of a row of that time. */
  ghost predicate CursorFits(log: Log, cursor: Option<int>) {
    cursor.Some? ==> 1 <= cursor.value < log.nextId
  }

  /**
   Follow `nextCursor` to the end, fetch k reading the log `env(k)`. It terminates for every
   limit of at least 1: the cursor falls, and ids are positive.
   */
  ghost function Walk(env: nat -> Log, k: nat, userId: Option<int>, cursor: Option<int>, limit: int): seq<Entry>
    requires History(env) && limit >= 1 && CursorFits(env(k), cursor)
    decreases if cursor.Some? then cursor.value else env(k).nextId
  {
    PageIsPrefix(env(k), userId, cursor, limit);
    var page := FindAll(env(k), userId, cursor, limit).value;
    if page.nextCursor.None? then page.items
    else
      ListingIsExact(env(k).rows, userId, cursor);
      assert page.items[|page.items| - 1] in Listing(env(k).rows, userId, cursor);
      assert Evolves(env(k), env(k + 1));
      page.items + Walk(env, k + 1, userId, page.nextCursor, limit)
  }

  lemma WalkStep(env: nat -> Log, k: nat, userId: Option<int>, cursor: Option<int>, limit: int)
    requires History(env) && limit >= 1 && CursorFits(env(k), cursor)
    ensures var all := Listing(env(k).rows, userId, cursor);
      if |all| <= limit then Walk(env, k, userId, cursor, limit) == all
      else
        var last := all[limit - 1];
        && last in all && last in env(k).rows && Selected(last, userId, cursor)
        && CursorFits(env(k + 1), Some(last.id))
        && Walk(env, k, userId, cursor, limit) == all[..limit] + Walk(env, k + 1, userId, Some(last.id), limit)
  {
    hide FindAll, Listing;
    PageIsPrefix(env(k), userId, cursor, limit);
    ListingIsExact(env(k).rows, userId, cursor);
    assert Evolves(env(k), env(k + 1));
  }

  /** While rows are only appended, the pages together are the listing as of the first page. */
  lemma {:induction false} WalkIsListing(env: nat -> Log, k: nat, userId: Option<int>, cursor: Option<int>, limit: int)
    requires History(env) && limit >= 1 && CursorFits(env(k), cursor)
    requires forall j: nat :: Appends(env(j), env(j + 1))
    ensures Walk(env, k, userId, cursor, limit) == Listing(env(k).rows, userId, cursor)
    decreases if cursor.Some? then cursor.value else env(k).nextId
  {
    hide Walk, Listing;
    WalkStep(env, k, userId, cursor, limit);
    var all := Listing(env(k).rows, userId, cursor);
    if |all| > limit {
      var next := Some(all[limit - 1].id);
      assert Appends(env(k), env(k + 1));
      ListingIgnoresNewer(env(k).rows, env(k + 1).rows, userId, next);
      ListingBelow(env(k).rows, userId, cursor, limit);
      WalkIsListing(env, k + 1, userId, next, limit);
    }
  }

  lemma {:induction false} ListingIgnoresNewer(rows: seq<Entry>, more: seq<Entry>,
                                               userId: Option<int>, cursor: Option<int>)
    requires rows <= more && cursor.Some?
    requires forall i :: |rows| <= i < |more| ==> more[i].id >= cursor.value
    ensures Listing(more, userId, cursor) == Listing(rows, userId, cursor)
  {
    if more != rows {
      ListingIgnoresNewer(rows, more[..|more| - 1], userId, cursor);
    }
  }

  /** Row `e` is in the log at fetch `k` and at every later one. */
  ghost predicate Outlives(env: nat -> Log, k: nat, e: Entry) {
    forall j: nat :: k <= j ==> e in env(j).rows
  }

  /**
   With the purge running too: the walk is strictly newest first (so no row comes twice), returns
   only rows selected when it started, and misses none of those that outlive it.
   */
  lemma {:induction false} WalkBesidePurge(env: nat -> Log, k: nat,
                                           userId: Option<int>, cursor: Option<int>, limit: int)
    requires History(env) && limit >= 1 && CursorFits(env(k), cursor)
    ensures var seen := Walk(env, k, userId, cursor, limit);
      && Descending(seen)
      && (forall e :: e in seen ==> e in env(k).rows && Selected(e, userId, cursor))
      && (forall e :: Selected(e, userId, cursor) && Outlives(env, k, e) ==> e in seen)
    decreases if cursor.Some? then cursor.value else env(k).nextId
  {
    hide Walk, Listing;
    WalkStep(env, k, userId, cursor, limit);
    ListingIsExact(env(k).rows, userId, cursor);
    var all := Listing(env(k).rows, userId, cursor);
    if |all| > limit {
      var last := all[limit - 1];
      var rest := Walk(env, k + 1, userId, Some(last.id), limit);
      WalkBesidePurge(env, k + 1, userId, Some(last.id), limit);
      assert Evolves(env(k), env(k + 1));
      SplitDescending(all, limit, rest);
      forall e | Selected(e, userId, cursor) && Outlives(env, k, e)
        ensures e in all[..limit] + rest
      {
        assert e in all;
        assert Outlives(env, k + 1, e);
        if e.id >= last.id {
          var i :| 0 <= i < |all| && all[i] == e;
          assert all[..limit][i] == e;
        }
      }
    } else {
      assert forall e :: Outlives(env, k, e) ==> e in env(k).rows;
    }
  }

  lemma SplitDescending(all: seq<Entry>, limit: nat, rest: seq<Entry>)
    requires Descending(all) && Descending(rest) && 1 <= limit <= |all|
    requires forall e :: e in rest ==> e.id < all[limit - 1].id
    ensures Descending(all[..limit] + rest)
  {
    forall j | 0 <= j < |rest|
      ensures rest[j].id < all[limit - 1].id
    {
      assert rest[j] in rest;
    }
  }
}
