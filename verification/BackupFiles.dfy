/** Rotation of the backup files over runs of exports (`src/scripts/db-backup.core.ts`). */
module BackupFiles {
  import opened Wrappers
  import opened Numerals
  import opened BackupNames

  const MAX_BACKUPS := 5

  // ---- the code ----

  function Insert(name: string, sorted: seq<string>): (r: seq<string>)
    ensures multiset(r) == multiset(sorted) + multiset{name}
  {
    if sorted == [] || Less(name, sorted[0]) then [name] + sorted
    else
      assert sorted == [sorted[0]] + sorted[1..];
      [sorted[0]] + Insert(name, sorted[1..])
  }

  /** `names.filter((f) => BACKUP_FILE_RE.test(f)).sort()`. */
  function SortedBackups(names: seq<string>): (r: seq<string>)
    ensures forall f :: f in r <==> f in names && IsBackup(f)
  {
    if names == [] then []
    else
      var rest := SortedBackups(names[1..]);
      if IsBackup(names[0]) then
        assert multiset(Insert(names[0], rest)) == multiset(rest) + multiset{names[0]};
        assert forall f :: f in Insert(names[0], rest) <==> f in multiset(Insert(names[0], rest));
        Insert(names[0], rest)
      else rest
  }

  function SelectFilesToDelete(filenames: seq<string>, maxKept: nat): seq<string> {
    var backups := SortedBackups(filenames);
    if |backups| <= maxKept then [] else backups[..|backups| - maxKept]
  }

  /** `join(dumpDir, latest)` is left to the caller: this is the file's name. */
  function LatestBackup(filenames: seq<string>): Option<string> {
    var backups := SortedBackups(filenames);
    if backups == [] then None else Some(backups[|backups| - 1])
  }

  // ---- the sorted list ----

  ghost predicate Ascending(names: seq<string>) {
    forall i, j :: 0 <= i < j < |names| ==> Less(names[i], names[j])
  }

  ghost predicate Distinct(names: seq<string>) {
    forall i, j :: 0 <= i < j < |names| ==> names[i] != names[j]
  }

  lemma {:induction false} InsertAscending(name: string, sorted: seq<string>)
    requires Ascending(sorted) && name !in sorted
    ensures Ascending(Insert(name, sorted))
  {
    hide Less;
    if sorted != [] {
      LessTotal(name, sorted[0]);
      if Less(name, sorted[0]) {
        forall i | 0 < i < |sorted|
          ensures Less(name, sorted[i])
        {
          LessTransitive(name, sorted[0], sorted[i]);
        }
      } else {
        InsertAscending(name, sorted[1..]);
        var rest := Insert(name, sorted[1..]);
        forall i | 0 <= i < |rest|
          ensures Less(sorted[0], rest[i])
        {
          assert rest[i] in multiset(rest);
          assert rest[i] in sorted[1..] || rest[i] == name;
        }
      }
    }
  }

  lemma {:induction false} SortedBackupsAscending(names: seq<string>)
    requires Distinct(names)
    ensures Ascending(SortedBackups(names))
  {
    if names != [] {
      SortedBackupsAscending(names[1..]);
      if IsBackup(names[0]) {
        assert names[0] !in names[1..];
        InsertAscending(names[0], SortedBackups(names[1..]));
      }
    }
  }

  // ---- the newest n, without sorting ----

  ghost function Newer(files: set<string>, f: string): set<string> {
    set g | g in files && IsBackup(g) && Less(f, g)
  }

  /** All other files, and the backups with fewer than n newer ones. */
  ghost function Kept(files: set<string>, n: nat): set<string> {
    set f | f in files && (IsBackup(f) ==> |Newer(files, f)| < n)
  }

  ghost function Members(names: seq<string>): set<string> {
    set f | f in names
  }

  lemma {:induction false} DistinctCount(names: seq<string>)
    requires Distinct(names)
    ensures |Members(names)| == |names|
  {
    if names != [] {
      DistinctCount(names[1..]);
      assert Members(names) == {names[0]} + Members(names[1..]);
    }
  }

  lemma NewerInSorted(filenames: seq<string>, i: nat)
    requires Distinct(filenames) && i < |SortedBackups(filenames)|
    ensures var backups := SortedBackups(filenames);
      && Newer(Members(filenames), backups[i]) == Members(backups[i + 1..])
      && |Members(backups[i + 1..])| == |backups| - 1 - i
  {
    hide Less, IsBackup;
    var backups := SortedBackups(filenames);
    SortedBackupsAscending(filenames);
    SortedDistinct(filenames);
    DistinctCount(backups[i + 1..]);
    forall g
      ensures g in Newer(Members(filenames), backups[i]) <==> g in backups[i + 1..]
    {
      if g in backups && Less(backups[i], g) {
        var k :| 0 <= k < |backups| && backups[k] == g;
        LessTotal(backups[i], backups[k]);
        assert k > i;
        assert backups[i + 1..][k - i - 1] == g;
      }
      if g in backups[i + 1..] {
        var k :| 0 <= k < |backups[i + 1..]| && backups[i + 1..][k] == g;
        assert backups[i + 1 + k] == g && g in backups;
      }
    }
  }

  /** What is selected is exactly what is not among the newest `maxKept`, in whatever order the names come. */
  lemma SelectsAllButNewest(filenames: seq<string>, maxKept: nat)
    requires Distinct(filenames)
    ensures Members(SelectFilesToDelete(filenames, maxKept)) == Members(filenames) - Kept(Members(filenames), maxKept)
  {
    hide Less, IsBackup;
    var backups := SortedBackups(filenames);
    var files := Members(filenames);
    forall f
      ensures f in SelectFilesToDelete(filenames, maxKept) <==> f in files && f !in Kept(files, maxKept)
    {
      if f in backups {
        var i :| 0 <= i < |backups| && backups[i] == f;
        NewerInSorted(filenames, i);
        if f in SelectFilesToDelete(filenames, maxKept) {
          var k :| 0 <= k < |backups| - maxKept && backups[k] == f;
          NewerInSorted(filenames, k);
        }
        if i < |backups| - maxKept {
          assert SelectFilesToDelete(filenames, maxKept)[i] == f;
        }
      }
    }
  }

  /** The latest backup is the one no other is newer than; there is none exactly when there is no backup. */
  lemma LatestIsNewest(filenames: seq<string>)
    requires Distinct(filenames)
    ensures match LatestBackup(filenames)
      case None => forall f :: f in filenames ==> !IsBackup(f)
      case Some(f) =>
        f in filenames && IsBackup(f) && forall g :: g in filenames && IsBackup(g) ==> g == f || Less(g, f)
  {
    hide Less, IsBackup;
    var backups := SortedBackups(filenames);
    SortedBackupsAscending(filenames);
    if backups != [] {
      assert backups[|backups| - 1] in backups;
    } else {
      assert forall f :: f !in backups;
    }
  }

  lemma MembersAppended(names: seq<string>, name: string)
    ensures Members(names + [name]) == Members(names) + {name}
  {
  }

  lemma KeptWithin(files: set<string>, n: nat)
    ensures Kept(files, n) <= files
    ensures files - (files - Kept(files, n)) == Kept(files, n)
  {
  }

  // ---- one export ----

  class DumpDir {
    var files: set<string>

    constructor ()
      ensures files == {}
    {
      files := {};
    }

    method ReadDir() returns (names: seq<string>)
      ensures Distinct(names) && Members(names) == files
    {
      names := [];
      var todo := files;
      while todo != {}
        invariant Distinct(names) && todo <= files
        invariant Members(names) == files - todo
        decreases todo
      {
        var name :| name in todo;
        assert name !in Members(names);
        MembersAppended(names, name);
        names := names + [name];
        todo := todo - {name};
      }
    }

    /** The part of `runExport` after the rows are read: write the file, then delete the oldest. */
    method WriteAndRotate(now: Instant) returns (file: string)
      modifies this
      ensures file == BuildBackupFilename(now)
      ensures files == Kept(old(files) + {file}, MAX_BACKUPS)
    {
      hide BuildBackupFilename, SelectFilesToDelete, Kept;
      file := BuildBackupFilename(now);
      files := files + {file};
      var names := ReadDir();
      var toDelete := SelectFilesToDelete(names, MAX_BACKUPS);
      SelectsAllButNewest(names, MAX_BACKUPS);
      ghost var written := files;
      for i := 0 to |toDelete|
        invariant files == written - Members(toDelete[..i])
      {
        MembersAppended(toDelete[..i], toDelete[i]);
        assert toDelete[..i + 1] == toDelete[..i] + [toDelete[i]];
        files := files - {toDelete[i]};
      }
      assert toDelete[..|toDelete|] == toDelete;
      KeptWithin(written, MAX_BACKUPS);
    }
  }

  // ---- runs of exports ----

  /** A file that is dropped has the newest n of the files newer than it among those kept. */
  lemma {:induction false} DroppedHasKeptNewer(files: set<string>, n: nat, g: string)
    requires |Newer(files, g)| >= n
    ensures |Newer(Kept(files, n), g)| >= n
    decreases |Newer(files, g)|
  {
    hide Less, IsBackup;
    if Newer(files, g) <= Kept(files, n) {
      assert Newer(Kept(files, n), g) == Newer(files, g);
    } else {
      var h :| h in Newer(files, g) && h !in Kept(files, n);
      NewerShrinks(files, g, h);
      SubsetSize(Newer(files, h), Newer(files, g), h);
      DroppedHasKeptNewer(files, n, h);
      NewerShrinks(Kept(files, n), g, h);
      SubsetCardinality(Newer(Kept(files, n), h), Newer(Kept(files, n), g));
    }
  }

  lemma NewerShrinks(files: set<string>, g: string, h: string)
    requires Less(g, h)
    ensures Newer(files, h) <= Newer(files, g) && h !in Newer(files, h)
  {
    forall x | x in Newer(files, h)
      ensures Less(g, x)
    {
      LessTransitive(g, h, x);
    }
    LessTotal(h, h);
  }

  lemma SubsetSize(a: set<string>, b: set<string>, x: string)
    requires a <= b && x in b && x !in a
    ensures |a| < |b|
  {
    SubsetCardinality(a, b - {x});
  }

  lemma {:induction false} SubsetCardinality(a: set<string>, b: set<string>)
    requires a <= b
    ensures |a| <= |b|
  {
    if x :| x in a {
      SubsetCardinality(a - {x}, b - {x});
    }
  }

  /** Rotating after every export keeps what one rotation at the end would keep. */
  lemma RotationsCompose(files: set<string>, n: nat, name: string)
    requires n > 0
    ensures Kept(Kept(files, n) + {name}, n) == Kept(files + {name}, n)
  {
    hide Less, IsBackup;
    var some, all := Kept(files, n) + {name}, files + {name};
    forall f | f in all
      ensures f in Kept(some, n) <==> f in Kept(all, n)
    {
      if IsBackup(f) {
        NewerMonotone(some, all, f);
        if f in files {
          NewerMonotone(files, all, f);
        }
        if g :| g in Newer(all, f) && g !in some {
          assert g in files && IsBackup(g) && |Newer(files, g)| >= n;
          DroppedHasKeptNewer(files, n, g);
          NewerShrinks(Kept(files, n), f, g);
          SubsetCardinality(Newer(Kept(files, n), g), Newer(Kept(files, n), f));
          NewerMonotone(Kept(files, n), some, f);
        } else {
          assert Newer(all, f) == Newer(some, f);
        }
      }
    }
  }

  lemma NewerMonotone(a: set<string>, b: set<string>, f: string)
    requires a <= b
    ensures Newer(a, f) <= Newer(b, f) && |Newer(a, f)| <= |Newer(b, f)|
  {
    hide Less, IsBackup;
    SubsetCardinality(Newer(a, f), Newer(b, f));
  }

  /** The directory after exports at these dates. */
  ghost function AfterExports(files: set<string>, dates: seq<Instant>): set<string> {
    if dates == [] then files
    else
      var n := |dates| - 1;
      Kept(AfterExports(files, dates[..n]) + {BuildBackupFilename(dates[n])}, MAX_BACKUPS)
  }

  ghost function Written(dates: seq<Instant>): set<string> {
    set i | 0 <= i < |dates| :: BuildBackupFilename(dates[i])
  }

  /** After any exports, at any dates: the newest five of all backups there ever were, and every other file. */
  lemma {:induction false} DirectoryAfterExports(files: set<string>, dates: seq<Instant>)
    requires dates != []
    ensures AfterExports(files, dates) == Kept(files + Written(dates), MAX_BACKUPS)
  {
    hide BuildBackupFilename, Kept;
    var n := |dates| - 1;
    var name := BuildBackupFilename(dates[n]);
    WrittenLast(dates);
    if n == 0 {
      assert dates[..0] == [];
      assert files + Written(dates) == files + {name};
    } else {
      DirectoryAfterExports(files, dates[..n]);
      RotationsCompose(files + Written(dates[..n]), MAX_BACKUPS, name);
      assert files + Written(dates) == files + Written(dates[..n]) + {name};
    }
  }

  lemma WrittenLast(dates: seq<Instant>)
    requires dates != []
    ensures var n := |dates| - 1;
      Written(dates) == Written(dates[..n]) + {BuildBackupFilename(dates[n])}
  {
    hide BuildBackupFilename;
    var n := |dates| - 1;
    forall f | f in Written(dates)
      ensures f in Written(dates[..n]) + {BuildBackupFilename(dates[n])}
    {
      var i :| 0 <= i < |dates| && BuildBackupFilename(dates[i]) == f;
      if i < n {
        assert dates[..n][i] == dates[i];
      }
    }
    forall f | f in Written(dates[..n])
      ensures f in Written(dates)
    {
      var i :| 0 <= i < n && BuildBackupFilename(dates[..n][i]) == f;
      assert dates[i] == dates[..n][i];
    }
  }

  /** The backup just written stays exactly when fewer than five backups have later names (a clock set back). */
  lemma NewBackupSurvives(files: set<string>, now: Instant)
    ensures var name := BuildBackupFilename(now);
      name in Kept(files + {name}, MAX_BACKUPS) <==> |Newer(files, name)| < MAX_BACKUPS
  {
    hide Less, IsBackup, BuildBackupFilename;
    var name := BuildBackupFilename(now);
    BackupsRecognised(now);
    LessTotal(name, name);
    assert Newer(files + {name}, name) == Newer(files, name);
  }

  /** `latestBackupPath` returns the backup just written exactly when no other backup has a later name. */
  lemma LatestIsJustWritten(files: set<string>, now: Instant, listing: seq<string>)
    requires Distinct(listing) && Members(listing) == Kept(files + {BuildBackupFilename(now)}, MAX_BACKUPS)
    ensures LatestBackup(listing) == Some(BuildBackupFilename(now)) <==> Newer(files, BuildBackupFilename(now)) == {}
  {
    hide Less, IsBackup, BuildBackupFilename, LatestBackup, Kept, PREFIX, SUFFIX;
    var name := BuildBackupFilename(now);
    BackupsRecognised(now);
    LatestIsNewest(listing);
    NewBackupSurvives(files, now);
    KeptWithin(files + {name}, MAX_BACKUPS);
    LessTotal(name, name);
    if Newer(files, name) == {} {
      assert name in Members(listing);
      var latest := LatestBackup(listing).value;
      assert latest in Members(listing);
      assert Less(name, latest) ==> latest in Newer(files + {name}, name);
      NewerAfterAdding(files, name);
    } else {
      NewerAfterAdding(files, name);
      KeptNewer(files + {name}, name);
      var g :| g in Members(listing) && IsBackup(g) && Less(name, g);
      LessTotal(name, g);
    }
  }

  lemma NewerAfterAdding(files: set<string>, name: string)
    ensures Newer(files + {name}, name) == Newer(files, name)
  {
    hide Less, IsBackup;
    LessTotal(name, name);
  }

  /** Some of the files newer than `f` are kept. */
  lemma KeptNewer(files: set<string>, f: string)
    requires Newer(files, f) != {}
    ensures exists g :: g in Kept(files, MAX_BACKUPS) && IsBackup(g) && Less(f, g)
  {
    hide Less, IsBackup;
    var kept := Kept(files, MAX_BACKUPS);
    if |Newer(files, f)| >= MAX_BACKUPS {
      DroppedHasKeptNewer(files, MAX_BACKUPS, f);
      var g :| g in Newer(kept, f);
    } else {
      var g :| g in Newer(files, f);
      NewerShrinks(files, f, g);
      SubsetCardinality(Newer(files, g), Newer(files, f));
      assert g in kept;
    }
  }

  /** When the clock has only moved forward since the backups there were written, none has a later name. */
  lemma ForwardClock(files: set<string>, dates: seq<Instant>, now: Instant)
    requires now.Fits() && forall i :: 0 <= i < |dates| ==> dates[i].Fits() && dates[i].Before(now)
    requires forall f :: f in files && IsBackup(f) ==> f in Written(dates)
    ensures Newer(files, BuildBackupFilename(now)) == {}
    ensures forall f :: f in files && IsBackup(f) ==> !Less(BuildBackupFilename(now), f)
  {
    hide Less, IsBackup, BuildBackupFilename, LexLess;
    var name := BuildBackupFilename(now);
    forall f | f in files && IsBackup(f)
      ensures !Less(name, f)
    {
      var i :| 0 <= i < |dates| && BuildBackupFilename(dates[i]) == f;
      NamesSortByDate(dates[i], now);
      LessTotal(f, name);
      LessTotal(name, name);
    }
  }

  /** A file that is not a JSON backup, a PostgreSQL dump for one, is never deleted. */
  lemma OtherFilesStay(files: set<string>, dates: seq<Instant>, f: string)
    requires f in files && !IsBackup(f)
    ensures f in AfterExports(files, dates)
  {
    if dates != [] {
      hide IsBackup, BuildBackupFilename;
      DirectoryAfterExports(files, dates);
    }
  }

  ghost function Backups(files: set<string>): set<string> {
    set f | f in files && IsBackup(f)
  }

  /** Rotation leaves min(count, n) backups. */
  lemma KeptCount(filenames: seq<string>, n: nat)
    requires Distinct(filenames)
    ensures var files := Members(filenames);
      |Backups(Kept(files, n))| == if |Backups(files)| <= n then |Backups(files)| else n
  {
    hide Less, IsBackup, SortedBackups;
    var backups := SortedBackups(filenames);
    var files := Members(filenames);
    SortedDistinct(filenames);
    var from := if |backups| <= n then 0 else |backups| - n;
    DistinctCount(backups);
    DistinctCount(backups[from..]);
    assert Backups(files) == Members(backups);
    forall f
      ensures f in Backups(Kept(files, n)) <==> f in backups[from..]
    {
      if f in backups {
        var i :| 0 <= i < |backups| && backups[i] == f;
        NewerInSorted(filenames, i);
        assert i >= from ==> backups[from..][i - from] == f;
        if f in backups[from..] {
          var k :| 0 <= k < |backups[from..]| && backups[from..][k] == f;
          assert i == from + k;
        }
      }
    }
    assert Backups(Kept(files, n)) == Members(backups[from..]);
  }

  lemma SortedDistinct(filenames: seq<string>)
    requires Distinct(filenames)
    ensures Distinct(SortedBackups(filenames))
    ensures forall f :: f in SortedBackups(filenames) <==> f in filenames && IsBackup(f)
  {
    hide Less, IsBackup;
    var backups := SortedBackups(filenames);
    SortedBackupsAscending(filenames);
    forall j, k | 0 <= j < k < |backups|
      ensures backups[j] != backups[k]
    {
      LessTotal(backups[j], backups[k]);
    }
  }

  // ---- a clock that moves forward, and one that was set back ----

  ghost predicate Forward(dates: seq<Instant>) {
    && (forall i :: 0 <= i < |dates| ==> dates[i].Fits())
    && (forall i, j :: 0 <= i < j < |dates| ==> dates[i].Before(dates[j]))
  }

  function Names(dates: seq<Instant>): (names: seq<string>)
    ensures |names| == |dates|
    ensures forall i :: 0 <= i < |dates| ==> names[i] == BuildBackupFilename(dates[i])
  {
    seq(|dates|, i requires 0 <= i < |dates| => BuildBackupFilename(dates[i]))
  }

  lemma ForwardNamesDistinct(dates: seq<Instant>)
    requires Forward(dates)
    ensures Written(dates) == Members(Names(dates)) && |Written(dates)| == |dates|
  {
    hide Less, IsBackup, BuildBackupFilename, LexLess;
    var names := Names(dates);
    forall i, j | 0 <= i < j < |names|
      ensures names[i] != names[j]
    {
      NamesSortByDate(dates[i], dates[j]);
      LessTotal(names[i], names[j]);
    }
    DistinctCount(names);
    forall f
      ensures f in Written(dates) <==> f in names
    {
      if f in names {
        var i :| 0 <= i < |names| && names[i] == f;
        assert BuildBackupFilename(dates[i]) == f;
      }
    }
    assert Written(dates) == Members(names);
  }

  lemma {:induction false} ListingExists(files: set<string>) returns (names: seq<string>)
    ensures Distinct(names) && Members(names) == files
  {
    names := [];
    if f :| f in files {
      var rest := ListingExists(files - {f});
      assert f !in Members(rest);
      MembersAppended(rest, f);
      names := rest + [f];
    }
  }

  lemma BackupsOfRun(files: set<string>, dates: seq<Instant>)
    requires forall f :: f in files ==> !IsBackup(f)
    ensures Backups(files + Written(dates)) == Written(dates)
    ensures forall f :: f in AfterExports(files, dates) && IsBackup(f) ==> f in Written(dates)
  {
    hide IsBackup, BuildBackupFilename, Kept;
    forall f | f in Written(dates)
      ensures IsBackup(f)
    {
      var i :| 0 <= i < |dates| && BuildBackupFilename(dates[i]) == f;
      BackupsRecognised(dates[i]);
    }
    if dates != [] {
      DirectoryAfterExports(files, dates);
      KeptWithin(files + Written(dates), MAX_BACKUPS);
    }
  }

  /**
   Exports at ever later dates into a directory that held no backup: it holds min(count, 5)
   backups, and the latest is the one just written.
   */
  lemma ForwardRun(files: set<string>, dates: seq<Instant>, listing: seq<string>)
    requires dates != [] && Forward(dates) && forall f :: f in files ==> !IsBackup(f)
    requires Distinct(listing) && Members(listing) == AfterExports(files, dates)
    ensures LatestBackup(listing) == Some(BuildBackupFilename(dates[|dates| - 1]))
    ensures |Backups(AfterExports(files, dates))| == if |dates| <= MAX_BACKUPS then |dates| else MAX_BACKUPS
  {
    hide IsBackup, BuildBackupFilename, Kept, Written, Backups, LatestBackup, LexLess, Less;
    var n := |dates| - 1;
    var before := AfterExports(files, dates[..n]);
    BackupsOfRun(files, dates[..n]);
    ForwardClock(before, dates[..n], dates[n]);
    LatestIsJustWritten(before, dates[n], listing);
    var all := ListingExists(files + Written(dates));
    BackupsOfRun(files, dates);
    ForwardNamesDistinct(dates);
    KeptCount(all, MAX_BACKUPS);
    DirectoryAfterExports(files, dates);
  }

  lemma LaterBackups(dates: seq<Instant>, now: Instant)
    requires Forward(dates) && now.Fits() && forall i :: 0 <= i < |dates| ==> now.Before(dates[i])
    ensures |Newer(Written(dates), BuildBackupFilename(now))| == |dates|
  {
    hide Less, IsBackup, BuildBackupFilename, LexLess;
    var name := BuildBackupFilename(now);
    ForwardNamesDistinct(dates);
    forall f | f in Written(dates)
      ensures Less(name, f) && IsBackup(f)
    {
      var i :| 0 <= i < |dates| && BuildBackupFilename(dates[i]) == f;
      NamesSortByDate(now, dates[i]);
      BackupsRecognised(dates[i]);
    }
    assert Newer(Written(dates), name) == Written(dates);
  }

  /** New Year of 2026 or 2027 and some milliseconds. */
  function NewYear(year: nat, milli: nat): Instant {
    Instant(year, 1, 1, 0, 0, 0, milli)
  }

  lemma NewYearFits(year: nat, milli: nat)
    requires year < 10_000 && milli < 1000
    ensures NewYear(year, milli).Fits()
  {
    assert Pow10(2) == 100 && Pow10(3) == 1000 && Pow10(4) == 10_000;
  }

  lemma NewYearBefore(year: nat, milli: nat, year': nat, milli': nat)
    ensures year < year' || (year == year' && milli < milli') ==> NewYear(year, milli).Before(NewYear(year', milli'))
  {
    var a, b := NewYear(year, milli).Fields(), NewYear(year', milli').Fields();
    if year < year' {
      LexLessByFirstDifference(a, b, 0);
    } else if year == year' && milli < milli' {
      LexLessByFirstDifference(a, b, 6);
    }
  }

  lemma {:induction false} LexLessByFirstDifference(a: seq<nat>, b: seq<nat>, k: nat)
    requires |a| == |b| && k < |a| && a[k] < b[k] && forall i :: 0 <= i < k ==> a[i] == b[i]
    ensures LexLess(a, b)
  {
    if k > 0 {
      LexLessByFirstDifference(a[1..], b[1..], k - 1);
    }
  }

  /** Five backups of New Year 2027 and an export dated New Year 2026: the file just written is deleted at once. */
  lemma SetBackClockExample()
    ensures var dates := seq(5, (i: nat) => NewYear(2027, i));
      var name := BuildBackupFilename(NewYear(2026, 0));
      name !in Kept(Written(dates) + {name}, MAX_BACKUPS)
  {
    hide BuildBackupFilename, LexLess, Less, IsBackup;
    var dates := seq(5, (i: nat) => NewYear(2027, i));
    var now := NewYear(2026, 0);
    NewYearFits(2026, 0);
    forall i | 0 <= i < 5
      ensures dates[i].Fits() && now.Before(dates[i])
    {
      NewYearFits(2027, i);
      NewYearBefore(2026, 0, 2027, i);
    }
    forall i, j | 0 <= i < j < 5
      ensures dates[i].Before(dates[j])
    {
      NewYearBefore(2027, i, 2027, j);
    }
    LaterBackups(dates, now);
    NewBackupSurvives(Written(dates), now);
  }
}
