/**
 Clockify imports that overlap. For each entry `importEntries` first asks the database whether its
 id is stored and then creates the row; the steps of other imports run in between, and no unique
 index stops a second row.
 */
module InterleavedImport {
  import opened Wrappers
  import opened ClockifyImport

  /** `todo` is yet to be looked up; `pending` was looked up, not found, and is about to be created. */
  datatype Job =
    Job(userId: int, todo: seq<NewEntry>, pending: Option<StoredEntry>, imported: nat, skipped: nat, threw: bool)
  {
    predicate Done() {
      pending.None? && (threw || todo == [])
    }
  }

  function Begun(userId: int, entries: seq<NewEntry>): Job {
    Job(userId, entries, None, 0, 0, false)
  }

  datatype System = System(rows: seq<StoredEntry>, jobs: map<nat, Job>)

  /** The next database step of an import. */
  function NextStep(rows: seq<StoredEntry>, job: Job): (seq<StoredEntry>, Job) {
    if job.pending.Some? then (rows + [job.pending.value], job.(pending := None, imported := job.imported + 1))
    else if job.Done() then (rows, job)
    else
      var e, rest := job.todo[0], job.(todo := job.todo[1..]);
      if Stored(rows, job.userId, e.id) then (rows, rest.(skipped := job.skipped + 1))
      else
        match DurationSeconds(e)
        case None => (rows, rest.(threw := true))
        case Some(seconds) =>
          (rows,
           if seconds <= 0 then rest.(skipped := job.skipped + 1) else rest.(pending := Some(RowOf(job.userId, e))))
  }

  function Perform(sys: System, p: nat): System {
    if p !in sys.jobs then sys
    else
      var (rows, job) := NextStep(sys.rows, sys.jobs[p]);
      System(rows, sys.jobs[p := job])
  }

  /** The steps of the imports, in the order the database takes them. */
  function RunActs(sys: System, acts: seq<nat>): System {
    if acts == [] then sys else Perform(RunActs(sys, acts[..|acts| - 1]), acts[|acts| - 1])
  }

  // ---- one import by itself ----

  /** What the serial import would make of a job from here on. */
  function Rest(rows: seq<StoredEntry>, job: Job): Tally {
    var t := if job.pending.None? then Tally(rows, job.imported, job.skipped, job.threw)
             else Tally(rows + [job.pending.value], job.imported + 1, job.skipped, job.threw);
    ImportAll(t, job.userId, job.todo)
  }

  lemma StepKeepsRest(rows: seq<StoredEntry>, job: Job)
    ensures var (rows', job') := NextStep(rows, job);
      && Rest(rows', job') == Rest(rows, job)
      && job'.userId == job.userId
      && (job'.Done() || Left(job') < Left(job))
      && (job.Done() ==> job' == job)
  {
  }

  /** An upper bound on the steps a job still has to take. */
  function Left(job: Job): nat {
    2 * |job.todo| + if job.pending.Some? then 1 else 0
  }

  /** An import nothing comes between ends with the table and the counters of the serial import. */
  lemma AloneIsImportAll(rows: seq<StoredEntry>, userId: int, entries: seq<NewEntry>, p: nat, n: nat)
    requires n >= 2 * |entries|
    ensures var end := RunActs(System(rows, map[p := Begun(userId, entries)]), seq(n, _ => p));
      && end.jobs.Keys == {p} && end.jobs[p].Done()
      && ImportAll(Tally(rows, 0, 0, false), userId, entries)
         == Tally(end.rows, end.jobs[p].imported, end.jobs[p].skipped, end.jobs[p].threw)
  {
    AloneKeepsRest(rows, userId, entries, p, n);
  }

  lemma {:induction false} AloneKeepsRest(rows: seq<StoredEntry>, userId: int, entries: seq<NewEntry>, p: nat, n: nat)
    ensures var end := RunActs(System(rows, map[p := Begun(userId, entries)]), seq(n, _ => p));
      && end.jobs.Keys == {p}
      && Rest(end.rows, end.jobs[p]) == ImportAll(Tally(rows, 0, 0, false), userId, entries)
      && (end.jobs[p].Done() || Left(end.jobs[p]) + n <= 2 * |entries|)
  {
    hide NextStep, Rest, ImportAll, Left;
    var sys := System(rows, map[p := Begun(userId, entries)]);
    if n == 0 {
      RestOfBegun(rows, userId, entries);
    } else {
      AloneKeepsRest(rows, userId, entries, p, n - 1);
      assert seq(n, _ => p)[..n - 1] == seq(n - 1, _ => p);
      var before := RunActs(sys, seq(n - 1, _ => p));
      StepKeepsRest(before.rows, before.jobs[p]);
    }
  }

  lemma RestOfBegun(rows: seq<StoredEntry>, userId: int, entries: seq<NewEntry>)
    ensures Rest(rows, Begun(userId, entries)) == ImportAll(Tally(rows, 0, 0, false), userId, entries)
    ensures Left(Begun(userId, entries)) == 2 * |entries|
  {
  }

  // ---- rows of one id ----

  predicate IsOf(row: StoredEntry, userId: int, id: string) {
    row.userId == userId && row.clockifyId == Some(id)
  }

  function CountRows(rows: seq<StoredEntry>, userId: int, id: string): nat {
    if rows == [] then 0
    else
      var n := |rows| - 1;
      CountRows(rows[..n], userId, id) + if IsOf(rows[n], userId, id) then 1 else 0
  }

  /** Counting agrees with the uniqueness the serial import keeps. */
  lemma {:induction false} OneRowIsCounted(rows: seq<StoredEntry>)
    ensures OneRowPerId(rows) <==> forall userId, id :: CountRows(rows, userId, id) <= 1
  {
    if rows != [] {
      var n := |rows| - 1;
      var front, last := rows[..n], rows[n];
      OneRowIsCounted(front);
      assert rows == front + [last];
      if last.clockifyId.Some? {
        StoredIsCounted(front, last.userId, last.clockifyId.value);
      }
      OneRowAppended(front, last);
      if !OneRowPerId(front) {
        var userId, id :| CountRows(front, userId, id) > 1;
        assert CountRows(rows, userId, id) > 1;
      } else if last.clockifyId.Some? && Stored(front, last.userId, last.clockifyId.value) {
        assert CountRows(rows, last.userId, last.clockifyId.value) > 1;
      } else {
        forall userId, id
          ensures CountRows(rows, userId, id) <= 1
        {
          assert CountRows(front, userId, id) <= 1;
        }
      }
    }
  }

  lemma OneRowAppended(rows: seq<StoredEntry>, row: StoredEntry)
    ensures OneRowPerId(rows + [row])
        <==> OneRowPerId(rows) && (row.clockifyId.Some? ==> !Stored(rows, row.userId, row.clockifyId.value))
  {
    var all := rows + [row];
    assert forall i :: 0 <= i < |rows| ==> all[i] == rows[i];
    assert all[|rows|] == row;
  }

  /** The imports between looking the id up and creating its row. */
  ghost function Creating(jobs: map<nat, Job>, userId: int, id: string): set<nat> {
    set p | p in jobs && IsCreating(jobs[p], userId, id)
  }

  /** Two imports are between the two steps for this id at once. */
  ghost predicate Overlap(sys: System, userId: int, id: string) {
    exists p, q :: p in Creating(sys.jobs, userId, id) && q in Creating(sys.jobs, userId, id) && p != q
  }

  /** The next step of `p` looks the id up, finds no row, and will create one. */
  ghost predicate Misses(sys: System, p: nat, userId: int, id: string) {
    p in sys.jobs && MissesId(sys.rows, sys.jobs[p], userId, id)
  }

  predicate MissesId(rows: seq<StoredEntry>, job: Job, userId: int, id: string) {
    && job.pending.None? && !job.Done() && job.userId == userId && job.todo[0].id == id
    && Importable(job.todo[0]) && !Stored(rows, userId, id)
  }

  ghost function Missed(sys: System, acts: seq<nat>, userId: int, id: string): nat {
    if acts == [] then 0
    else
      var n := |acts| - 1;
      Missed(sys, acts[..n], userId, id)
      + if Misses(RunActs(sys, acts[..n]), acts[n], userId, id) then 1 else 0
  }

  ghost function Total(sys: System, userId: int, id: string): nat {
    CountRows(sys.rows, userId, id) + |Creating(sys.jobs, userId, id)|
  }

  lemma {:induction false} StoredIsCounted(rows: seq<StoredEntry>, userId: int, id: string)
    ensures Stored(rows, userId, id) <==> CountRows(rows, userId, id) > 0
  {
    if rows != [] {
      var n := |rows| - 1;
      StoredIsCounted(rows[..n], userId, id);
      assert rows == rows[..n] + [rows[n]];
      StoredAppended(rows[..n], rows[n], userId, id);
    }
  }

  /** Rows stored and rows about to be: a step adds one if it misses the id, and otherwise changes nothing. */
  lemma TotalAfterStep(sys: System, p: nat, userId: int, id: string)
    ensures Total(Perform(sys, p), userId, id)
         == Total(sys, userId, id) + if Misses(sys, p, userId, id) then 1 else 0
  {
    hide NextStep, CountRows, Creating;
    if p in sys.jobs {
      StepCounted(sys.rows, sys.jobs[p], userId, id);
      CreatingAfter(sys.jobs, p, NextStep(sys.rows, sys.jobs[p]).1, userId, id);
    }
  }

  ghost predicate IsCreating(job: Job, userId: int, id: string) {
    job.pending.Some? && IsOf(job.pending.value, userId, id)
  }

  /** A step creates the pending row, or else looks an entry up and leaves the table alone. */
  lemma StepCounted(rows: seq<StoredEntry>, job: Job, userId: int, id: string)
    ensures var (rows', job') := NextStep(rows, job);
      if job.pending.Some? then
        && CountRows(rows', userId, id) == CountRows(rows, userId, id) + (if IsCreating(job, userId, id) then 1 else 0)
        && !IsCreating(job', userId, id)
      else rows' == rows && (IsCreating(job', userId, id) <==> MissesId(rows, job, userId, id))
  {
    if job.pending.Some? {
      assert (rows + [job.pending.value])[..|rows|] == rows;
    }
  }

  lemma CreatingAfter(jobs: map<nat, Job>, p: nat, job: Job, userId: int, id: string)
    requires p in jobs
    ensures |Creating(jobs[p := job], userId, id)|
         == |Creating(jobs, userId, id)| - (if IsCreating(jobs[p], userId, id) then 1 else 0)
            + if IsCreating(job, userId, id) then 1 else 0
  {
    var before, after := Creating(jobs, userId, id), Creating(jobs[p := job], userId, id);
    assert after - {p} == before - {p};
    assert |after - {p}| == |after| - if p in after then 1 else 0;
    assert |before - {p}| == |before| - if p in before then 1 else 0;
  }

  /** Rows are conserved: those of an id are the ones there were and one for each lookup that missed it. */
  lemma {:induction false} TotalIsMisses(sys: System, acts: seq<nat>, userId: int, id: string)
    ensures Total(RunActs(sys, acts), userId, id) == Total(sys, userId, id) + Missed(sys, acts, userId, id)
  {
    hide Total, Misses;
    if acts != [] {
      var n := |acts| - 1;
      TotalIsMisses(sys, acts[..n], userId, id);
      TotalAfterStep(RunActs(sys, acts[..n]), acts[n], userId, id);
    }
  }

  lemma Overlapped(sys: System, userId: int, id: string)
    ensures Overlap(sys, userId, id) <==> |Creating(sys.jobs, userId, id)| >= 2
  {
    var creating := Creating(sys.jobs, userId, id);
    if p, q :| p in creating && q in creating && p != q {
      assert |creating - {p} - {q}| == |creating| - 2;
    }
    if |creating| >= 2 {
      var p :| p in creating;
      assert |creating - {p}| == |creating| - 1;
      var q :| q in creating - {p};
    }
  }

  /** With no overlap in any state so far, an id has one row at most, stored or about to be. */
  lemma {:induction false} OneUntilOverlap(sys: System, acts: seq<nat>, userId: int, id: string)
    requires Total(sys, userId, id) <= 1
    requires forall i :: 0 <= i <= |acts| ==> !Overlap(RunActs(sys, acts[..i]), userId, id)
    ensures Total(RunActs(sys, acts), userId, id) <= 1
  {
    hide Overlap, Creating, CountRows, Stored;
    if acts != [] {
      var n := |acts| - 1;
      assert forall i :: 0 <= i <= n ==> acts[..n][..i] == acts[..i];
      OneUntilOverlap(sys, acts[..n], userId, id);
      var before := RunActs(sys, acts[..n]);
      TotalAfterStep(before, acts[n], userId, id);
      assert acts[..n + 1] == acts;
      Overlapped(RunActs(sys, acts), userId, id);
      StoredIsCounted(before.rows, userId, id);
      if Misses(before, acts[n], userId, id) {
        MissCreates(before, acts[n], userId, id);
      }
    }
  }

  lemma MissCreates(sys: System, p: nat, userId: int, id: string)
    requires Misses(sys, p, userId, id)
    ensures Perform(sys, p).rows == sys.rows
  {
  }

  /**
   However the steps of any number of imports fall, when all are done an id that had one row at most
   has two or more if and only if at some moment two imports were both between finding it missing
   and creating its row.
   */
  lemma TwoRowsExactlyWhen(sys: System, acts: seq<nat>, userId: int, id: string)
    requires CountRows(sys.rows, userId, id) <= 1
    requires forall p :: p in sys.jobs ==> sys.jobs[p].pending.None?
    requires forall p :: p in sys.jobs ==> p in RunActs(sys, acts).jobs && RunActs(sys, acts).jobs[p].Done()
    ensures var rows := RunActs(sys, acts).rows;
      && CountRows(rows, userId, id) == CountRows(sys.rows, userId, id) + Missed(sys, acts, userId, id)
      && (CountRows(rows, userId, id) >= 2
          <==> exists i :: 0 <= i <= |acts| && Overlap(RunActs(sys, acts[..i]), userId, id))
  {
    hide Overlap, CountRows, Missed, NextStep, Perform;
    var end := RunActs(sys, acts);
    SameJobs(sys, acts);
    assert Creating(sys.jobs, userId, id) == {} && Creating(end.jobs, userId, id) == {};
    TotalIsMisses(sys, acts, userId, id);
    if i :| 0 <= i <= |acts| && Overlap(RunActs(sys, acts[..i]), userId, id) {
      var at := RunActs(sys, acts[..i]);
      Overlapped(at, userId, id);
      assert acts == acts[..i] + acts[i..];
      RunActsSplit(sys, acts[..i], acts[i..]);
      TotalIsMisses(at, acts[i..], userId, id);
    } else {
      OneUntilOverlap(sys, acts, userId, id);
    }
  }

  lemma {:induction false} SameJobs(sys: System, acts: seq<nat>)
    ensures RunActs(sys, acts).jobs.Keys == sys.jobs.Keys
  {
    hide NextStep;
    if acts != [] {
      SameJobs(sys, acts[..|acts| - 1]);
    }
  }

  lemma {:induction false} RunActsSplit(sys: System, a: seq<nat>, b: seq<nat>)
    ensures RunActs(sys, a + b) == RunActs(RunActs(sys, a), b)
  {
    hide Perform;
    if b == [] {
      assert a + b == a;
    } else {
      var n := |b| - 1;
      assert (a + b)[..|a| + n] == a + b[..n];
      RunActsSplit(sys, a, b[..n]);
    }
  }

  /** One entry imported twice at once: both look before either creates, and it is stored twice. */
  lemma TwoRowsExample()
    ensures var e := NewEntry("e1", None, At(0), At(60_000), true);
      var job := Begun(1, [e]);
      RunActs(System([], map[0 := job, 1 := job]), [0, 1, 0, 1]).rows == [RowOf(1, e), RowOf(1, e)]
  {
    var e := NewEntry("e1", None, At(0), At(60_000), true);
    var sys := System([], map[0 := Begun(1, [e]), 1 := Begun(1, [e])]);
    FourActs(sys, 0, 1, 0, 1);
  }

  lemma FourActs(sys: System, a: nat, b: nat, c: nat, d: nat)
    ensures RunActs(sys, [a, b, c, d]) == Perform(Perform(Perform(Perform(sys, a), b), c), d)
  {
    hide Perform;
    var acts := [a, b, c, d];
    assert acts[..3] == [a, b, c] && acts[..3][..2] == [a, b] && acts[..3][..2][..1] == [a];
    assert RunActs(sys, acts[..3][..2][..1]) == Perform(sys, a);
    assert RunActs(sys, acts[..3][..2]) == Perform(Perform(sys, a), b);
    assert RunActs(sys, acts[..3]) == Perform(Perform(Perform(sys, a), b), c);
  }
}
