/**
 Importing Clockify time entries: the page loop and the mapping of
 `src/clockify/clockify.service.ts`, and the deduplicating loop of
 `src/time-entries/time-entries.service.ts`.
 */
module ClockifyImport {
  import opened Wrappers

  const PAGE_SIZE := 50

  /** `new Date(text)`: an epoch millisecond, or an invalid date. */
  datatype Time = Invalid | At(ms: int)

  /** A Clockify entry; a running one has no end. */
  datatype RemoteEntry =
    RemoteEntry(id: string, description: Option<string>, start: Time, end: Option<Time>, billable: bool)

  datatype NewEntry = NewEntry(id: string, description: Option<string>, start: Time, end: Time, billable: bool)

  datatype StoredEntry =
    StoredEntry(userId: int, clockifyId: Option<string>, description: Option<string>,
                start: int, end: int, seconds: int, billable: bool)

  // ---- collecting the pages ----

  /** Page `page` (from 1) of a server that pages a fixed list. */
  function ServerPage(list: seq<RemoteEntry>, page: nat): (entries: seq<RemoteEntry>)
    requires page >= 1
  {
    var from, to := (page - 1) * PAGE_SIZE, page * PAGE_SIZE;
    if |list| <= from then [] else if |list| <= to then list[from..] else list[from..to]
  }

  /** The whole list in order, in floor(length / 50) + 1 requests. */
  method GetEntries(list: seq<RemoteEntry>) returns (all: seq<RemoteEntry>, requests: nat)
    ensures all == list
    ensures requests == |list| / PAGE_SIZE + 1
  {
    all := [];
    requests := 0;
    var page := 1;
    while true
      invariant page == requests + 1
      invariant requests * PAGE_SIZE <= |list|
      invariant all == list[..requests * PAGE_SIZE]
      decreases |list| - requests * PAGE_SIZE
    {
      var entries := ServerPage(list, page);
      requests := requests + 1;
      if |entries| == 0 {
        break;
      }
      all := all + entries;
      if |entries| < PAGE_SIZE {
        break;
      }
      page := page + 1;
    }
  }

  /** Entries still running are dropped, the others keep their order. */
  function Completed(entries: seq<RemoteEntry>): seq<NewEntry> {
    if entries == [] then []
    else
      var e := entries[0];
      (if e.end.None? then [] else [NewEntry(e.id, e.description, e.start, e.end.value, e.billable)])
      + Completed(entries[1..])
  }

  // ---- importing ----

  /** `Math.round((end - start) / 1000)`: halves round up. NaN for an invalid date. */
  function DurationSeconds(e: NewEntry): Option<int> {
    if e.start.Invalid? || e.end.Invalid? then None else Some((e.end.ms - e.start.ms + 500) / 1000)
  }

  predicate Stored(rows: seq<StoredEntry>, userId: int, id: string) {
    exists i :: 0 <= i < |rows| && rows[i].userId == userId && rows[i].clockifyId == Some(id)
  }

  function RowOf(userId: int, e: NewEntry): StoredEntry
    requires DurationSeconds(e).Some?
  {
    StoredEntry(userId, Some(e.id), e.description, e.start.ms, e.end.ms, DurationSeconds(e).value, e.billable)
  }

  /** The table, the two counters, and whether storing an invalid date has thrown. */
  datatype Tally = Tally(rows: seq<StoredEntry>, imported: nat, skipped: nat, threw: bool)

  function ImportOne(t: Tally, userId: int, e: NewEntry): Tally {
    if Stored(t.rows, userId, e.id) then t.(skipped := t.skipped + 1)
    else
      match DurationSeconds(e)
      // NaN <= 0 is false, so the row goes to the database layer, which throws
      case None => t.(threw := true)
      case Some(seconds) =>
        if seconds <= 0 then t.(skipped := t.skipped + 1)
        else t.(rows := t.rows + [RowOf(userId, e)], imported := t.imported + 1)
  }

  function ImportAll(t: Tally, userId: int, entries: seq<NewEntry>): Tally
    decreases |entries|
  {
    if entries == [] || t.threw then t
    else ImportAll(ImportOne(t, userId, entries[0]), userId, entries[1..])
  }

  datatype ImportError = InvalidDate

  class TimeEntries {
    var rows: seq<StoredEntry>

    method ImportEntries(userId: int, entries: seq<NewEntry>) returns (r: Result<(nat, nat), ImportError>)
      modifies this
      ensures var t := ImportAll(Tally(old(rows), 0, 0, false), userId, entries);
        rows == t.rows && r == if t.threw then Failure(InvalidDate) else Success((t.imported, t.skipped))
    {
      var imported, skipped := 0, 0;
      for k := 0 to |entries|
        invariant ImportAll(Tally(rows, imported, skipped, false), userId, entries[k..])
               == ImportAll(Tally(old(rows), 0, 0, false), userId, entries)
      {
        var entry := entries[k];
        assert entries[k..][1..] == entries[k + 1..];
        if Stored(rows, userId, entry.id) {
          skipped := skipped + 1;
          continue;
        }
        var durationSeconds := DurationSeconds(entry);
        if durationSeconds == None {
          return Failure(InvalidDate);
        }
        if durationSeconds.value <= 0 {
          skipped := skipped + 1;
          continue;
        }
        rows := rows + [RowOf(userId, entry)];
        imported := imported + 1;
      }
      return Success((imported, skipped));
    }

    method ImportFromClockify(userId: int, list: seq<RemoteEntry>) returns (r: Result<(nat, nat), ImportError>)
      modifies this
      ensures var t := ImportAll(Tally(old(rows), 0, 0, false), userId, Completed(list));
        rows == t.rows && r == if t.threw then Failure(InvalidDate) else Success((t.imported, t.skipped))
    {
      var entries, _ := GetEntries(list);
      r := ImportEntries(userId, Completed(entries));
    }
  }

  /** Importing A and then B is importing A followed by B (nothing more happens after a throw). */
  lemma {:induction false} ImportAppends(t: Tally, userId: int, a: seq<NewEntry>, b: seq<NewEntry>)
    ensures ImportAll(t, userId, a + b) == ImportAll(ImportAll(t, userId, a), userId, b)
    decreases |a|
  {
    if a == [] {
      assert a + b == b;
    } else if !t.threw {
      assert (a + b)[1..] == a[1..] + b;
      ImportAppends(ImportOne(t, userId, a[0]), userId, a[1..], b);
    }
  }

  // ---- which entries are imported, told without the loop ----

  /** Both dates valid, and half a second apart at least: what rounds to one second or more. */
  predicate Importable(e: NewEntry) {
    e.start.At? && e.end.At? && e.end.ms - e.start.ms >= 500
  }

  /** There is no duration exactly for an invalid date, and it is positive exactly for importable entries. */
  lemma DurationTold(e: NewEntry)
    ensures DurationSeconds(e).None? <==> e.start.Invalid? || e.end.Invalid?
    ensures DurationSeconds(e).Some? && DurationSeconds(e).value > 0 <==> Importable(e)
  {
  }

  /** The stored row is the entry's own, its duration the nearest whole second, halves up. */
  lemma RowCopiesEntry(userId: int, e: NewEntry)
    requires Importable(e)
    ensures var row := RowOf(userId, e);
      && row.userId == userId && row.clockifyId == Some(e.id)
      && row.description == e.description && row.billable == e.billable
      && At(row.start) == e.start && At(row.end) == e.end
      && row.seconds > 0 && -500 <= row.end - row.start - 1000 * row.seconds < 500
  {
  }

  /** Neither stored at the start nor preceded by an importable entry of the same id. */
  predicate IsNew(rows: seq<StoredEntry>, userId: int, entries: seq<NewEntry>, i: nat)
    requires i < |entries|
  {
    && !Stored(rows, userId, entries[i].id)
    && forall j :: 0 <= j < i ==> !(Importable(entries[j]) && entries[j].id == entries[i].id)
  }

  function NewRows(rows: seq<StoredEntry>, userId: int, entries: seq<NewEntry>): seq<StoredEntry> {
    if entries == [] then []
    else
      var i := |entries| - 1;
      NewRows(rows, userId, entries[..i])
      + (if Importable(entries[i]) && IsNew(rows, userId, entries, i) then [RowOf(userId, entries[i])] else [])
  }

  /** An entry with an invalid date that is not skipped as already stored. */
  ghost predicate Throws(rows: seq<StoredEntry>, userId: int, entries: seq<NewEntry>) {
    exists i :: 0 <= i < |entries| && !HasDates(entries[i]) && IsNew(rows, userId, entries, i)
  }

  predicate HasDates(e: NewEntry) {
    e.start.At? && e.end.At?
  }

  lemma {:induction false} StoredInNewRows(rows: seq<StoredEntry>, userId: int, entries: seq<NewEntry>, id: string)
    ensures Stored(rows + NewRows(rows, userId, entries), userId, id)
        <==> Stored(rows, userId, id) || exists j :: 0 <= j < |entries| && Importable(entries[j]) && entries[j].id == id
  {
    if entries == [] {
      assert rows + [] == rows;
    } else {
      var i := |entries| - 1;
      var front := entries[..i];
      StoredInNewRows(rows, userId, front, id);
      var before, after := rows + NewRows(rows, userId, front), rows + NewRows(rows, userId, entries);
      if Importable(entries[i]) && IsNew(rows, userId, entries, i) {
        assert after == before + [RowOf(userId, entries[i])];
        StoredAppended(before, RowOf(userId, entries[i]), userId, id);
      } else {
        assert after == before;
      }
      assert forall j :: 0 <= j < i ==> entries[j] == front[j];
    }
  }

  lemma StoredAppended(rows: seq<StoredEntry>, row: StoredEntry, userId: int, id: string)
    ensures Stored(rows + [row], userId, id)
        <==> Stored(rows, userId, id) || (row.userId == userId && row.clockifyId == Some(id))
  {
    var all := rows + [row];
    if Stored(rows, userId, id) {
      var i :| 0 <= i < |rows| && rows[i].userId == userId && rows[i].clockifyId == Some(id);
      assert all[i] == rows[i];
    }
    assert all[|rows|] == row;
  }

  /**
   The outcome in full: it throws exactly when a new entry has an invalid date; otherwise the
   table grows by the first importable entry of each id not stored before, in list order, and
   every entry is either imported or skipped.
   */
  lemma {:induction false} ImportOutcome(rows: seq<StoredEntry>, userId: int, entries: seq<NewEntry>)
    ensures var t := ImportAll(Tally(rows, 0, 0, false), userId, entries);
      && (t.threw <==> Throws(rows, userId, entries))
      && (!t.threw ==>
        && t.rows == rows + NewRows(rows, userId, entries)
        && t.imported == |NewRows(rows, userId, entries)|
        && t.imported + t.skipped == |entries|)
  {
    if entries == [] {
      assert rows + [] == rows;
    } else {
      hide IsNew, Throws, Stored;
      var i := |entries| - 1;
      var front, last := entries[..i], entries[i];
      assert entries == front + [last];
      ImportOutcome(rows, userId, front);
      ImportAppends(Tally(rows, 0, 0, false), userId, front, [last]);
      ThrowsLast(rows, userId, entries);
      var t := ImportAll(Tally(rows, 0, 0, false), userId, front);
      if !t.threw {
        NewAtLast(rows, userId, entries);
        var u := ImportAll(t, userId, [last]);
        assert u == ImportAll(ImportOne(t, userId, last), userId, []) == ImportOne(t, userId, last);
      }
    }
  }

  lemma NewAtLast(rows: seq<StoredEntry>, userId: int, entries: seq<NewEntry>)
    requires entries != []
    ensures var i := |entries| - 1;
      var before := rows + NewRows(rows, userId, entries[..i]);
      IsNew(rows, userId, entries, i) <==> !Stored(before, userId, entries[i].id)
  {
    var i := |entries| - 1;
    var front := entries[..i];
    StoredInNewRows(rows, userId, front, entries[i].id);
    assert forall j :: 0 <= j < i ==> front[j] == entries[j];
  }

  lemma ThrowsLast(rows: seq<StoredEntry>, userId: int, entries: seq<NewEntry>)
    requires entries != []
    ensures var i := |entries| - 1;
      Throws(rows, userId, entries) <==>
        Throws(rows, userId, entries[..i]) || (!HasDates(entries[i]) && IsNew(rows, userId, entries, i))
  {
    var i := |entries| - 1;
    var front := entries[..i];
    forall j | 0 <= j < i
      ensures front[j] == entries[j] && (IsNew(rows, userId, front, j) <==> IsNew(rows, userId, entries, j))
    {
      assert forall k :: 0 <= k <= j ==> front[k] == entries[k];
    }
  }

  /** A second run of the same list skips every entry. */
  lemma SecondRunImportsNothing(rows: seq<StoredEntry>, userId: int, entries: seq<NewEntry>)
    requires !Throws(rows, userId, entries)
    ensures var first := ImportAll(Tally(rows, 0, 0, false), userId, entries);
      ImportAll(Tally(first.rows, 0, 0, false), userId, entries) == Tally(first.rows, 0, |entries|, false)
  {
    ImportOutcome(rows, userId, entries);
    var stored := rows + NewRows(rows, userId, entries);
    forall i | 0 <= i < |entries|
      ensures Stored(stored, userId, entries[i].id) || (HasDates(entries[i]) && !Importable(entries[i]))
    {
      StoredInNewRows(rows, userId, entries, entries[i].id);
      if !HasDates(entries[i]) {
        assert !IsNew(rows, userId, entries, i);
      }
    }
    SkipsAll(stored, userId, entries, 0);
  }

  lemma {:induction false} SkipsAll(rows: seq<StoredEntry>, userId: int, entries: seq<NewEntry>, skipped: nat)
    requires forall i :: 0 <= i < |entries| ==>
      Stored(rows, userId, entries[i].id) || (HasDates(entries[i]) && !Importable(entries[i]))
    ensures ImportAll(Tally(rows, 0, skipped, false), userId, entries) == Tally(rows, 0, skipped + |entries|, false)
  {
    if entries != [] {
      SkipsAll(rows, userId, entries[1..], skipped + 1);
    }
  }

  /** At most one row per Clockify id, for each user. */
  ghost predicate OneRowPerId(rows: seq<StoredEntry>) {
    forall i, j :: 0 <= i < j < |rows| && rows[i].userId == rows[j].userId && rows[i].clockifyId.Some?
      ==> rows[i].clockifyId != rows[j].clockifyId
  }

  /** Every import keeps it, even one that throws half-way, and touches no row already there. */
  lemma {:induction false} ImportKeepsOneRowPerId(t: Tally, userId: int, entries: seq<NewEntry>)
    requires OneRowPerId(t.rows)
    ensures OneRowPerId(ImportAll(t, userId, entries).rows)
    ensures t.rows <= ImportAll(t, userId, entries).rows
    decreases |entries|
  {
    if entries != [] && !t.threw {
      var u := ImportOne(t, userId, entries[0]);
      assert OneRowPerId(u.rows) && t.rows <= u.rows by {
        if u.rows != t.rows {
          assert u.rows == t.rows + [RowOf(userId, entries[0])];
        }
      }
      ImportKeepsOneRowPerId(u, userId, entries[1..]);
    }
  }

  /** Each imported row copies an importable entry; its duration is positive and the nearest whole second. */
  lemma {:induction false} NewRowsAreSound(rows: seq<StoredEntry>, userId: int, entries: seq<NewEntry>)
    ensures forall r :: r in NewRows(rows, userId, entries) ==>
      && r.userId == userId && r.seconds > 0
      && -500 <= r.end - r.start - 1000 * r.seconds < 500
      && exists e :: e in entries && r.clockifyId == Some(e.id) && r.description == e.description
                     && r.billable == e.billable && e.start == At(r.start) && e.end == At(r.end)
  {
    if entries != [] {
      var i := |entries| - 1;
      NewRowsAreSound(rows, userId, entries[..i]);
      assert entries == entries[..i] + [entries[i]];
    }
  }

  /** Page by page or all at once, exactly the entries that have ended are handed on, in order. */
  lemma {:induction false} CompletedAppends(a: seq<RemoteEntry>, b: seq<RemoteEntry>)
    ensures Completed(a + b) == Completed(a) + Completed(b)
  {
    if a == [] {
      assert a + b == b;
    } else {
      assert (a + b)[1..] == a[1..] + b;
      CompletedAppends(a[1..], b);
    }
  }

  lemma {:induction false} CompletedIsExact(entries: seq<RemoteEntry>, e: NewEntry)
    ensures e in Completed(entries)
        <==> RemoteEntry(e.id, e.description, e.start, Some(e.end), e.billable) in entries
  {
    if entries != [] {
      CompletedIsExact(entries[1..], e);
      assert entries == [entries[0]] + entries[1..];
    }
  }
}
