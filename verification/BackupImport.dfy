/**
 Replacing every table's rows with a backup's (`importBackup8` of
 `src/scripts/db-backup.prisma8.ts`) in a database that enforces its foreign keys, with their
 cascades and set-nulls on deletion.
 */
module BackupImport {
  import opened BackupSchema
  import opened BackupRows

  /** Every model's rows, in some order; the export lists them in that of OrderByFor. */
  type Tables = map<Model, seq<Row>>

  type Schema = Model -> ModelMeta

  ghost predicate Complete(db: Tables) {
    forall m: Model :: m in db
  }

  predicate RefersTo(row: Row, fk: ForeignKey, parent: Row) {
    fk.field in row && row[fk.field] != Null && "id" in parent && parent["id"] == row[fk.field]
  }

  predicate RefersInto(row: Row, fk: ForeignKey, parents: seq<Row>) {
    exists j :: 0 <= j < |parents| && RefersTo(row, fk, parents[j])
  }

  /** The references of the rows of `m` are null or name an existing row. */
  predicate RowsLinked(db: Tables, m: Model, rows: seq<Row>)
    requires Complete(db)
  {
    forall i, k :: 0 <= i < |rows| && 0 <= k < |ForeignKeys(m)| ==>
      var fk := ForeignKeys(m)[k];
      fk.field in rows[i] && rows[i][fk.field] != Null ==> RefersInto(rows[i], fk, db[fk.parent])
  }

  /** No dangling reference anywhere. */
  ghost predicate Consistent(db: Tables) {
    Complete(db) && forall m: Model :: RowsLinked(db, m, db[m])
  }

  // ---- deleting every row of one table ----

  /** The row goes when all rows of `t` are deleted: it is one of them, or cascades from a row that goes. */
  predicate Goes(db: Tables, t: Model, m: Model, row: Row)
    requires Complete(db)
    decreases Rank(m)
  {
    m == t
    || exists k :: 0 <= k < |ForeignKeys(m)| && ForeignKeys(m)[k].onDelete == Cascade && ParentGoes(db, t, m, row, k)
  }

  predicate ParentGoes(db: Tables, t: Model, m: Model, row: Row, k: nat)
    requires Complete(db) && k < |ForeignKeys(m)|
    decreases Rank(m), 0
  {
    var fk := ForeignKeys(m)[k];
    exists j :: 0 <= j < |db[fk.parent]|
      && RefersTo(row, fk, db[fk.parent][j]) && Goes(db, t, fk.parent, db[fk.parent][j])
  }

  /** The row with every set-null reference to a row that goes set to null. */
  function Nulled(db: Tables, t: Model, m: Model, row: Row): Row
    requires Complete(db)
  {
    map f | f in row ::
      if exists k :: 0 <= k < |ForeignKeys(m)| && ForeignKeys(m)[k].field == f && ForeignKeys(m)[k].onDelete == SetNull
                     && ParentGoes(db, t, m, row, k)
      then Null else row[f]
  }

  function Remaining(db: Tables, t: Model, m: Model, rows: seq<Row>): seq<Row>
    requires Complete(db)
  {
    if rows == [] then []
    else
      var n := |rows| - 1;
      Remaining(db, t, m, rows[..n]) + (if Goes(db, t, m, rows[n]) then [] else [Nulled(db, t, m, rows[n])])
  }

  function AfterDeleteAll(db: Tables, t: Model): Tables
    requires Complete(db)
  {
    map m | m in db :: Remaining(db, t, m, db[m])
  }

  /** No row of any table refers to a row of `t`. */
  ghost predicate Unreferenced(db: Tables, t: Model)
    requires Complete(db)
  {
    forall m: Model, i, k :: 0 <= i < |db[m]| && 0 <= k < |ForeignKeys(m)| && ForeignKeys(m)[k].parent == t ==>
      !RefersInto(db[m][i], ForeignKeys(m)[k], db[t])
  }

  lemma StaysIfParentsStay(db: Tables, t: Model, m: Model, row: Row)
    requires Complete(db) && m != t
    requires forall k :: 0 <= k < |ForeignKeys(m)| ==> !ParentGoes(db, t, m, row, k)
    ensures !Goes(db, t, m, row)
  {
    hide ForeignKeys, Rank, ParentGoes;
  }

  lemma ParentStays(db: Tables, t: Model, m: Model, row: Row, k: nat)
    requires Complete(db) && k < |ForeignKeys(m)|
    requires var parents := db[ForeignKeys(m)[k].parent];
      forall j :: 0 <= j < |parents| && RefersTo(row, ForeignKeys(m)[k], parents[j]) ==>
        !Goes(db, t, ForeignKeys(m)[k].parent, parents[j])
    ensures !ParentGoes(db, t, m, row, k)
  {
    hide ForeignKeys, Rank, RefersTo, Goes;
  }

  lemma NotReferred(db: Tables, t: Model, m: Model, i: nat, k: nat)
    requires Complete(db) && Unreferenced(db, t) && i < |db[m]| && k < |ForeignKeys(m)| && ForeignKeys(m)[k].parent == t
    ensures forall j :: 0 <= j < |db[t]| ==> !RefersTo(db[m][i], ForeignKeys(m)[k], db[t][j])
  {
    hide ForeignKeys, RefersTo;
    assert !RefersInto(db[m][i], ForeignKeys(m)[k], db[t]);
  }

  lemma {:induction false} NothingElseGoes(db: Tables, t: Model, m: Model, i: nat)
    requires Complete(db) && Unreferenced(db, t) && m != t && i < |db[m]|
    ensures !Goes(db, t, m, db[m][i])
    ensures forall k :: 0 <= k < |ForeignKeys(m)| ==> !ParentGoes(db, t, m, db[m][i], k)
    decreases Rank(m)
  {
    hide ForeignKeys, Rank, RefersTo, Goes, ParentGoes, Unreferenced;
    var row := db[m][i];
    forall k | 0 <= k < |ForeignKeys(m)|
      ensures !ParentGoes(db, t, m, row, k)
    {
      var fk := ForeignKeys(m)[k];
      if fk.parent == t {
        NotReferred(db, t, m, i, k);
      } else {
        forall j | 0 <= j < |db[fk.parent]|
          ensures !Goes(db, t, fk.parent, db[fk.parent][j])
        {
          NothingElseGoes(db, t, fk.parent, j);
        }
      }
      ParentStays(db, t, m, row, k);
    }
    StaysIfParentsStay(db, t, m, row);
  }

  lemma Untouched(db: Tables, t: Model, m: Model, row: Row)
    requires Complete(db)
    requires forall k :: 0 <= k < |ForeignKeys(m)| ==> !ParentGoes(db, t, m, row, k)
    ensures Nulled(db, t, m, row) == row
  {
    hide ForeignKeys, Rank, ParentGoes;
  }

  lemma {:induction false} AllRemain(db: Tables, t: Model, m: Model, rows: seq<Row>)
    requires Complete(db)
    requires forall i :: 0 <= i < |rows| ==> !Goes(db, t, m, rows[i]) && Nulled(db, t, m, rows[i]) == rows[i]
    ensures Remaining(db, t, m, rows) == rows
  {
    hide ForeignKeys, Rank, Goes, Nulled;
    if rows != [] {
      AllRemain(db, t, m, rows[..|rows| - 1]);
    }
  }

  lemma {:induction false} NoneRemain(db: Tables, t: Model, rows: seq<Row>)
    requires Complete(db)
    ensures Remaining(db, t, t, rows) == []
  {
    if rows != [] {
      NoneRemain(db, t, rows[..|rows| - 1]);
    }
  }

  /** With no reference into it, emptying a table cascades to no row and nulls no field. */
  lemma DeleteAllUnreferenced(db: Tables, t: Model)
    requires Complete(db) && Unreferenced(db, t)
    ensures AfterDeleteAll(db, t) == db[t := []]
  {
    hide Remaining, Unreferenced, Goes, Nulled, ParentGoes, ForeignKeys;
    forall m | m in db
      ensures Remaining(db, t, m, db[m]) == if m == t then [] else db[m]
    {
      if m == t {
        NoneRemain(db, t, db[t]);
      } else {
        forall i | 0 <= i < |db[m]|
          ensures !Goes(db, t, m, db[m][i]) && Nulled(db, t, m, db[m][i]) == db[m][i]
        {
          NothingElseGoes(db, t, m, i);
          Untouched(db, t, m, db[m][i]);
        }
        AllRemain(db, t, m, db[m]);
      }
    }
  }

  // ---- the wipe, latest model first ----

  /** The models of rank k and later emptied. */
  function Wiped(db: Tables, k: nat): Tables {
    map m | m in db :: if Rank(m) >= k then [] else db[m]
  }

  /** After any number of wipe steps no reference dangles. */
  lemma WipedConsistent(db: Tables, k: nat)
    requires Consistent(db)
    ensures Consistent(Wiped(db, k))
  {
    hide ForeignKeys;
    forall m: Model
      ensures RowsLinked(Wiped(db, k), m, Wiped(db, k)[m])
    {
      assert RowsLinked(db, m, db[m]);
      ParentsEarlier(m);
    }
  }

  lemma ParentsEarlier(m: Model)
    ensures forall i :: 0 <= i < |ForeignKeys(m)| ==> Rank(ForeignKeys(m)[i].parent) < Rank(m)
  {
  }

  /** Each wipe step empties its table and changes nothing else: no cascade, no set-null. */
  lemma WipeStep(db: Tables, k: nat)
    requires Complete(db) && k < |MODEL_ORDER|
    ensures Complete(Wiped(db, k + 1))
    ensures AfterDeleteAll(Wiped(db, k + 1), MODEL_ORDER[k]) == Wiped(db, k)
  {
    hide ForeignKeys, AfterDeleteAll, Rank, Unreferenced, Wiped;
    WipedUnreferenced(db, k);
    DeleteAllUnreferenced(Wiped(db, k + 1), MODEL_ORDER[k]);
    WipedNext(db, k);
  }

  lemma WipedUnreferenced(db: Tables, k: nat)
    requires Complete(db) && k < |MODEL_ORDER|
    ensures Complete(Wiped(db, k + 1)) && Unreferenced(Wiped(db, k + 1), MODEL_ORDER[k])
  {
    hide ForeignKeys, Rank, RefersInto;
    var at := Wiped(db, k + 1);
    RankAt(k);
    forall m: Model, j | 0 <= j < |ForeignKeys(m)| && ForeignKeys(m)[j].parent == MODEL_ORDER[k]
      ensures at[m] == []
    {
      ParentsEarlier(m);
    }
  }

  lemma WipedNext(db: Tables, k: nat)
    requires Complete(db) && k < |MODEL_ORDER|
    ensures Wiped(db, k + 1)[MODEL_ORDER[k] := []] == Wiped(db, k)
  {
    hide Rank;
    RankAt(k);
    RanksDistinct();
  }

  lemma RanksDistinct()
    ensures forall m, m' :: Rank(m) == Rank(m') ==> m == m'
  {
    forall m, m'
      ensures Rank(m) == Rank(m') ==> m == m'
    {
      RankInjective(m, m');
    }
  }

  // ---- the refill, earliest model first ----

  /** A backup holds rows per model; a model it lacks (an older backup) has none. */
  type Backup = map<Model, seq<Row>>

  function RestoredRow(schema: Schema, m: Model, row: Row): Row {
    StoredRow(schema(m), RowFromBackup(schema(m), row))
  }

  function RestoredRows(schema: Schema, data: Backup, m: Model): seq<Row> {
    var rows := if m in data then data[m] else [];
    seq(|rows|, i requires 0 <= i < |rows| => RestoredRow(schema, m, rows[i]))
  }

  function AllModels(): (all: set<Model>)
    ensures forall m: Model :: m in all
  {
    OrderIsTopological();
    set m | m in MODEL_ORDER
  }

  /** The database the backup describes. */
  function Restored(schema: Schema, data: Backup): (db: Tables)
    ensures Complete(db)
  {
    map m | m in AllModels() :: RestoredRows(schema, data, m)
  }

  /** The models before rank k filled, the others empty. */
  function Filled(db: Tables, k: nat): Tables {
    map m | m in db :: if Rank(m) < k then db[m] else []
  }

  /** The rules one table imposes by itself (keys, uniqueness, required columns, enums); no rows always pass. */
  type TableRules = (Model, seq<Row>) -> bool

  /** The rows of `m` obey its rules and refer to rows that are there. */
  ghost predicate Insertable(rules: TableRules, db: Tables, m: Model)
    requires Complete(db)
  {
    db[m] == [] || (rules(m, db[m]) && RowsLinked(db, m, db[m]))
  }

  /** Inserting into an emptied table with all its parents filled checks exactly the table of the backup. */
  lemma FillStep(db: Tables, k: nat)
    requires Complete(db) && k < |MODEL_ORDER|
    ensures var m := MODEL_ORDER[k];
      && Filled(db, k)[m] == []
      && Filled(db, k)[m := db[m]] == Filled(db, k + 1)
      && RowsLinked(Filled(db, k), m, db[m]) == RowsLinked(db, m, db[m])
  {
    hide ForeignKeys, Rank, RowsLinked;
    var m := MODEL_ORDER[k];
    FilledNext(db, k);
    RankAt(k);
    ParentsEarlier(m);
    SameParentsSameLinks(Filled(db, k), db, m, db[m]);
  }

  lemma FilledNext(db: Tables, k: nat)
    requires Complete(db) && k < |MODEL_ORDER|
    ensures Filled(db, k)[MODEL_ORDER[k] := db[MODEL_ORDER[k]]] == Filled(db, k + 1)
  {
    hide Rank;
    RankAt(k);
    RanksDistinct();
  }

  lemma SameParentsSameLinks(a: Tables, b: Tables, m: Model, rows: seq<Row>)
    requires Complete(a) && Complete(b)
    requires forall i :: 0 <= i < |ForeignKeys(m)| ==> a[ForeignKeys(m)[i].parent] == b[ForeignKeys(m)[i].parent]
    ensures RowsLinked(a, m, rows) == RowsLinked(b, m, rows)
  {
    hide ForeignKeys, Rank, RefersInto;
  }

  ghost predicate InsertableBefore(rules: TableRules, db: Tables, k: nat)
    requires Complete(db)
  {
    forall m: Model :: Rank(m) < k ==> Insertable(rules, db, m)
  }

  /** The step of the refill for the model of rank k: skipped when it has no rows. */
  lemma FillIteration(rules: TableRules, db: Tables, k: nat)
    requires Complete(db) && k < |MODEL_ORDER|
    ensures var m := MODEL_ORDER[k];
      var at := Filled(db, k);
      && Complete(at)
      && (db[m] == [] ==> at == Filled(db, k + 1) && Insertable(rules, db, m))
      && (db[m] != [] ==>
        && at[m := at[m] + db[m]] == Filled(db, k + 1)
        && (Insertable(rules, db, m) <==> rules(m, at[m] + db[m]) && RowsLinked(at, m, db[m])))
      && (InsertableBefore(rules, db, k + 1) <==> InsertableBefore(rules, db, k) && Insertable(rules, db, m))
  {
    hide ForeignKeys, Rank, RowsLinked;
    var m := MODEL_ORDER[k];
    var at := Filled(db, k);
    FillStep(db, k);
    RankAt(k);
    RanksDistinct();
    assert at[m] + db[m] == db[m];
    assert at[m := at[m]] == at;
  }

  lemma AllInsertable(rules: TableRules, db: Tables)
    requires Complete(db)
    ensures InsertableBefore(rules, db, 0)
    ensures InsertableBefore(rules, db, |MODEL_ORDER|) <==> forall m: Model :: Insertable(rules, db, m)
  {
    hide Rank, Insertable;
  }

  lemma EmptyOrFull(db: Tables)
    requires Complete(db)
    ensures Wiped(db, 0) == Filled(db, 0)
    ensures Wiped(db, |MODEL_ORDER|) == db == Filled(db, |MODEL_ORDER|)
  {
    hide Rank;
  }

  lemma EmptyIsEmpty(a: Tables, b: Tables)
    requires Complete(a) && Complete(b)
    ensures Complete(Wiped(a, 0)) && Wiped(a, 0) == Wiped(b, 0) == Filled(b, 0)
  {
    hide Rank;
  }

  /** While the tables filled so far are linked, no reference dangles. */
  lemma FilledConsistent(db: Tables, k: nat)
    requires Complete(db) && forall m: Model :: Rank(m) < k ==> RowsLinked(db, m, db[m])
    ensures Consistent(Filled(db, k))
  {
    hide ForeignKeys;
    forall m: Model
      ensures RowsLinked(Filled(db, k), m, Filled(db, k)[m])
    {
      ParentsEarlier(m);
    }
  }

  class Database {
    var tables: Tables
    const schema: Schema
    const rules: TableRules

    constructor (tables: Tables, schema: Schema, rules: TableRules)
      ensures this.tables == tables && this.schema == schema && this.rules == rules
    {
      this.tables, this.schema, this.rules := tables, schema, rules;
    }

    /** `deleteAll()` of one model, foreign-key actions included. */
    method DeleteAll(m: Model)
      requires Complete(tables)
      modifies this
      ensures tables == AfterDeleteAll(old(tables), m)
    {
      tables := AfterDeleteAll(tables, m);
    }

    /** `createAll(rows)`: all of them, or none and an error. */
    method CreateAll(m: Model, rows: seq<Row>) returns (ok: bool)
      requires Complete(tables)
      modifies this
      ensures ok == (rules(m, old(tables)[m] + rows) && RowsLinked(old(tables), m, rows))
      ensures tables == if ok then old(tables)[m := old(tables)[m] + rows] else old(tables)
    {
      ok := rules(m, tables[m] + rows) && RowsLinked(tables, m, rows);
      if ok {
        tables := tables[m := tables[m] + rows];
      }
    }

    /** The deletions, latest model first. */
    method WipeAll()
      requires Complete(tables)
      modifies this
      ensures Complete(tables) && tables == Wiped(old(tables), 0)
    {
      hide Wiped, AfterDeleteAll;
      ghost var before := tables;
      EmptyOrFull(before);
      var k := |MODEL_ORDER|;
      while k > 0
        invariant 0 <= k <= |MODEL_ORDER|
        invariant tables == Wiped(before, k)
      {
        k := k - 1;
        WipeStep(before, k);
        DeleteAll(MODEL_ORDER[k]);
      }
      EmptyIsEmpty(before, before);
    }

    /** The insertions, earliest model first; a model without rows is skipped. */
    method RefillAll(data: Backup) returns (ok: bool)
      requires Complete(tables) && tables == Wiped(Restored(schema, data), 0)
      modifies this
      ensures ok == forall m: Model :: Insertable(rules, Restored(schema, data), m)
      ensures ok ==> tables == Restored(schema, data)
    {
      hide Filled, Wiped, Insertable, InsertableBefore, RowsLinked, RestoredRows;
      ghost var target := Restored(schema, data);
      EmptyOrFull(target);
      AllInsertable(rules, target);
      for k := 0 to |MODEL_ORDER|
        invariant tables == Filled(target, k)
        invariant InsertableBefore(rules, target, k)
      {
        var m := MODEL_ORDER[k];
        FillIteration(rules, target, k);
        var rows := RestoredRows(schema, data, m);
        if |rows| == 0 {
          continue;
        }
        var created := CreateAll(m, rows);
        if !created {
          return false;
        }
      }
      return true;
    }

    /**
     One transaction. It succeeds exactly when every table of the backup obeys its rules and refers
     to rows of the backup, and then the database is the backup; otherwise it is as before.
     */
    method ImportBackup8(data: Backup) returns (ok: bool)
      requires Complete(tables)
      modifies this
      ensures var target := Restored(schema, data);
        && ok == (forall m: Model :: Insertable(rules, target, m))
        && tables == if ok then target else old(tables)
    {
      hide Wiped, Insertable, Restored;
      var before := tables;
      WipeAll();
      EmptyIsEmpty(before, Restored(schema, data));
      ok := RefillAll(data);
      if !ok {
        tables := before;
      }
    }
  }

  /** What an import accepts is free of dangling references, at the end and after every single insert step. */
  lemma ImportedIsConsistent(rules: TableRules, target: Tables, k: nat)
    requires Complete(target) && forall m: Model :: Insertable(rules, target, m)
    ensures Consistent(target) && Consistent(Filled(target, k))
  {
    hide ForeignKeys, Rank;
    forall m: Model
      ensures RowsLinked(target, m, target[m])
    {
      assert Insertable(rules, target, m);
    }
    FilledConsistent(target, k);
  }

  // ---- export, then import ----

  ghost predicate WellStored(schema: Schema, db: Tables) {
    && Complete(db)
    && (forall m: Model :: schema(m).Valid())
    && (forall m: Model, i :: 0 <= i < |db[m]| ==> DatabaseRow(schema(m), db[m][i]))
  }

  ghost function ExportRows(schema: Schema, db: Tables, m: Model): (rows: seq<Row>)
    requires WellStored(schema, db)
    ensures |rows| == |db[m]|
    ensures forall i :: 0 <= i < |rows| ==>
      DistinctColumns(schema(m), db[m][i]) && rows[i] == BackupRow(schema(m), db[m][i])
  {
    ExportableRows(schema, db, m);
    seq(|db[m]|, i requires 0 <= i < |db[m]| && DistinctColumns(schema(m), db[m][i]) => BackupRow(schema(m), db[m][i]))
  }

  lemma ExportableRows(schema: Schema, db: Tables, m: Model)
    requires WellStored(schema, db)
    ensures forall i :: 0 <= i < |db[m]| ==> DistinctColumns(schema(m), db[m][i])
  {
    forall i | 0 <= i < |db[m]|
      ensures DistinctColumns(schema(m), db[m][i])
    {
      KnownFieldsDistinct(schema(m), db[m][i]);
    }
  }

  ghost function Export(schema: Schema, db: Tables): Backup
    requires WellStored(schema, db)
  {
    map m | m in AllModels() :: ExportRows(schema, db, m)
  }

  /** The database an export describes is the exported database, row by row and field by field. */
  lemma RestoredExport(schema: Schema, db: Tables)
    requires WellStored(schema, db)
    ensures Restored(schema, Export(schema, db)) == db
  {
    hide BackupRow, RowFromBackup, StoredRow, DatabaseRow, DistinctColumns;
    var back := Restored(schema, Export(schema, db));
    forall m | m in db
      ensures RestoredRows(schema, Export(schema, db), m) == db[m]
    {
      forall i | 0 <= i < |db[m]|
        ensures RestoredRow(schema, m, ExportRows(schema, db, m)[i]) == db[m][i]
      {
        RowRoundTrip(schema(m), db[m][i]);
      }
    }
    assert back.Keys == db.Keys;
  }

  /** So an export can be imported over any database, and exporting again gives the same rows. */
  lemma ExportIsImportable(schema: Schema, rules: TableRules, db: Tables)
    requires WellStored(schema, db) && Consistent(db) && forall m: Model :: rules(m, db[m])
    ensures var target := Restored(schema, Export(schema, db));
      && (forall m: Model :: Insertable(rules, target, m))
      && WellStored(schema, target) && Export(schema, target) == Export(schema, db)
  {
    hide ForeignKeys, WellStored, Export, Restored;
    RestoredExport(schema, db);
  }

  // ---- the order of the rows in a backup ----

  /** How the database orders the values of a key column. */
  type ValueOrder = (Value, Value) -> bool

  ghost predicate StrictOrder(less: ValueOrder) {
    && (forall v :: !less(v, v))
    && (forall u, v, w :: less(u, v) && less(v, w) ==> less(u, w))
  }

  /** The rows compare by the first of the fields in which they differ. */
  predicate KeyLess(less: ValueOrder, fields: seq<string>, a: Row, b: Row) {
    fields != [] && fields[0] in a && fields[0] in b
    && (less(a[fields[0]], b[fields[0]])
        || (a[fields[0]] == b[fields[0]] && KeyLess(less, fields[1..], a, b)))
  }

  /** How the export reads a table: by its primary key, of which no two rows have the same. */
  ghost predicate InKeyOrder(less: ValueOrder, m: Model, rows: seq<Row>) {
    forall i, j :: 0 <= i < j < |rows| ==> KeyLess(less, OrderByFor(m), rows[i], rows[j])
  }

  lemma {:induction false} KeyLessStrict(less: ValueOrder, fields: seq<string>, a: Row, b: Row)
    requires StrictOrder(less)
    ensures !(KeyLess(less, fields, a, b) && KeyLess(less, fields, b, a))
  {
    if fields != [] {
      KeyLessStrict(less, fields[1..], a, b);
    }
  }

  /** A table has one listing by its primary key, in whatever order its rows are stored. */
  lemma {:induction false} ListingIsUnique(less: ValueOrder, m: Model, a: seq<Row>, b: seq<Row>)
    requires StrictOrder(less) && InKeyOrder(less, m, a) && InKeyOrder(less, m, b)
    requires multiset(a) == multiset(b)
    ensures a == b
    decreases |a|
  {
    hide InKeyOrder, StrictOrder, KeyLess, OrderByFor;
    SameLength(a, b);
    if a != [] {
      var n := |a| - 1;
      SameLast(less, m, a, b);
      WithoutLast(a);
      WithoutLast(b);
      OrderOfFront(less, m, a);
      OrderOfFront(less, m, b);
      ListingIsUnique(less, m, a[..n], b[..n]);
    }
  }

  lemma SameLength(a: seq<Row>, b: seq<Row>)
    requires multiset(a) == multiset(b)
    ensures |a| == |b|
  {
    assert |multiset(a)| == |a| && |multiset(b)| == |b|;
  }

  lemma WithoutLast(rows: seq<Row>)
    requires rows != []
    ensures multiset(rows[..|rows| - 1]) == multiset(rows) - multiset{rows[|rows| - 1]}
  {
    assert rows == rows[..|rows| - 1] + [rows[|rows| - 1]];
  }

  lemma OrderOfFront(less: ValueOrder, m: Model, rows: seq<Row>)
    requires rows != [] && InKeyOrder(less, m, rows)
    ensures InKeyOrder(less, m, rows[..|rows| - 1])
  {
    hide KeyLess;
  }

  lemma SameLast(less: ValueOrder, m: Model, a: seq<Row>, b: seq<Row>)
    requires StrictOrder(less) && InKeyOrder(less, m, a) && InKeyOrder(less, m, b)
    requires multiset(a) == multiset(b) && |a| == |b| > 0
    ensures a[|a| - 1] == b[|b| - 1]
  {
    hide KeyLess, StrictOrder, OrderByFor;
    var n := |a| - 1;
    assert a[n] in multiset(b) && b[n] in multiset(a);
    var i :| 0 <= i <= n && b[i] == a[n];
    var j :| 0 <= j <= n && a[j] == b[n];
    KeyLessStrict(less, OrderByFor(m), a[n], b[n]);
  }

  /**
   In whatever order the restored tables keep their rows, listing them by their primary keys gives
   the exported rows in the exported order: the next backup holds the same lists.
   */
  lemma NextExportIsTheSame(schema: Schema, less: ValueOrder, db: Tables, again: Tables)
    requires WellStored(schema, db) && StrictOrder(less) && again.Keys == db.Keys
    requires forall m :: m in db ==> InKeyOrder(less, m, db[m]) && InKeyOrder(less, m, again[m])
    requires forall m :: m in db ==> multiset(again[m]) == multiset(Restored(schema, Export(schema, db))[m])
    ensures again == db && WellStored(schema, again) && Export(schema, again) == Export(schema, db)
  {
    hide WellStored, Export, Restored, InKeyOrder, StrictOrder;
    RestoredExport(schema, db);
    forall m | m in db
      ensures again[m] == db[m]
    {
      ListingIsUnique(less, m, again[m], db[m]);
    }
    assert again == db;
  }

  // ---- older backups ----

  /** An export without some tables, its rows with columns that have since been dropped. */
  ghost function OlderExport(schema: Schema, db: Tables, absent: set<Model>, dropped: (Model, nat) -> Row): Backup
    requires WellStored(schema, db)
  {
    map m | m in AllModels() - absent :: OlderRows(schema, db, dropped, m)
  }

  ghost function OlderRows(schema: Schema, db: Tables, dropped: (Model, nat) -> Row, m: Model): (rows: seq<Row>)
    requires WellStored(schema, db)
    ensures |rows| == |db[m]|
    ensures forall i :: 0 <= i < |rows| ==> rows[i] == ExportRows(schema, db, m)[i] + dropped(m, i)
  {
    var rows := ExportRows(schema, db, m);
    seq(|rows|, i requires 0 <= i < |rows| => rows[i] + dropped(m, i))
  }

  /** The database with some tables empty. */
  function Without(db: Tables, absent: set<Model>): Tables {
    map m | m in db :: if m in absent then [] else db[m]
  }

  /** Whatever tables it lacks and whatever columns were dropped since, the rest is restored as it was. */
  lemma RestoredOlderExport(schema: Schema, db: Tables, absent: set<Model>, dropped: (Model, nat) -> Row)
    requires WellStored(schema, db)
    requires forall m: Model, i: nat :: dropped(m, i).Keys !! schema(m).columns.Values
    ensures Restored(schema, OlderExport(schema, db, absent, dropped)) == Without(db, absent)
  {
    hide BackupRow, RowFromBackup, StoredRow, DatabaseRow, DistinctColumns;
    var data := OlderExport(schema, db, absent, dropped);
    forall m | m in db
      ensures RestoredRows(schema, data, m) == Without(db, absent)[m]
    {
      if m !in absent {
        forall i | 0 <= i < |db[m]|
          ensures RestoredRow(schema, m, data[m][i]) == db[m][i]
        {
          DroppedColumns(schema(m), ExportRows(schema, db, m)[i], dropped(m, i));
          RowRoundTrip(schema(m), db[m][i]);
        }
      }
    }
    assert Restored(schema, data).Keys == db.Keys;
  }

  /** An export without the tables in `absent` restores all the others, and leaves those empty. */
  lemma RestoredWithoutTables(schema: Schema, db: Tables, absent: set<Model>)
    requires WellStored(schema, db)
    ensures Restored(schema, Export(schema, db) - absent) == Without(db, absent)
  {
    hide WellStored, Restored, ExportRows, Without;
    var none := (m: Model, i: nat) => map[];
    RestoredOlderExport(schema, db, absent, none);
    var data := Export(schema, db) - absent;
    forall m | m in data
      ensures data[m] == OlderRows(schema, db, none, m)
    {
      assert forall i :: 0 <= i < |data[m]| ==> data[m][i] + map[] == data[m][i];
    }
    assert data == OlderExport(schema, db, absent, none);
  }

  /** The row has a value where it refers to a table in `absent`. */
  predicate RefersToAbsent(row: Row, m: Model, absent: set<Model>) {
    exists k :: 0 <= k < |ForeignKeys(m)| && ForeignKeys(m)[k].parent in absent
      && ForeignKeys(m)[k].field in row && row[ForeignKeys(m)[k].field] != Null
  }

  /**
   Such a backup of a consistent database can be imported exactly when no row of its tables refers
   to a row of a table it lacks.
   */
  lemma WithoutTablesImportableExactly(rules: TableRules, db: Tables, absent: set<Model>)
    requires Consistent(db) && forall m: Model :: rules(m, db[m])
    ensures (forall m: Model :: Insertable(rules, Without(db, absent), m))
        <==> forall m: Model, i :: m !in absent && 0 <= i < |db[m]| ==> !RefersToAbsent(db[m][i], m, absent)
  {
    hide ForeignKeys, Rank;
    var target := Without(db, absent);
    forall m: Model
      ensures Insertable(rules, target, m)
          <==> (m in absent || forall i :: 0 <= i < |db[m]| ==> !RefersToAbsent(db[m][i], m, absent))
    {
      if m !in absent {
        LinkedWithoutExactly(db, absent, m);
      }
    }
  }

  lemma LinkedWithoutExactly(db: Tables, absent: set<Model>, m: Model)
    requires Consistent(db)
    ensures RowsLinked(Without(db, absent), m, db[m])
        <==> forall i :: 0 <= i < |db[m]| ==> !RefersToAbsent(db[m][i], m, absent)
  {
    hide ForeignKeys, Rank, RefersTo;
    assert RowsLinked(db, m, db[m]);
    forall i, k | 0 <= i < |db[m]| && 0 <= k < |ForeignKeys(m)|
      ensures var fk := ForeignKeys(m)[k];
        fk.field in db[m][i] && db[m][i][fk.field] != Null ==>
          (RefersInto(db[m][i], fk, Without(db, absent)[fk.parent]) <==> fk.parent !in absent)
    {
    }
  }
}
