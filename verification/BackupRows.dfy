/**
 Rows to and from the portable backup format (`src/scripts/db-backup.prisma8.ts`, with
 `fromDb` of `src/prisma8/timestamp.ts`), and what PostgreSQL reads back after storing them.
 */
module BackupRows {
  import opened Numerals
  import opened AmountText
  import Rounding

  /** A JSON value of a row; `Other` stands for a nested one. */
  datatype Value = Null | Bool(b: bool) | Int(n: int) | Text(s: string) | Other(json: string)

  /** The columns the backup rewrites are timestamp(3) and numeric(p, scale). */
  datatype Codec = Timestamp | Numeric(scale: nat) | Plain

  type Row = map<string, Value>

  /** A model of the contract: the codec and the column name of each field. */
  datatype ModelMeta = ModelMeta(codecs: map<string, Codec>, columns: map<string, string>) {
    ghost predicate Valid() {
      && codecs.Keys == columns.Keys
      && forall f, g :: f in columns && g in columns && columns[f] == columns[g] ==> f == g
    }
  }

  // ---- decimals ----

  /** `value.replace(/0+$/, '').replace(/\.$/, '')` when there is a point. */
  function CanonicalDecimal(value: string): string {
    if '.' in value then
      var trimmed := TrimZeros(value);
      if trimmed != "" && trimmed[|trimmed| - 1] == '.' then trimmed[..|trimmed| - 1] else trimmed
    else value
  }

  /** numeric(p, scale) text read back: the fraction padded to the scale. */
  function PgNumeric(value: string, scale: nat): string {
    var (whole, frac) := SplitPoint(value);
    if scale == 0 || |frac| > scale then value
    else whole + "." + frac + Zeros(scale - |frac|)
  }

  lemma {:induction false} TrimZerosAfter(front: string, c: char, s: string)
    requires c != '0'
    ensures TrimZeros(front + [c] + s) == front + [c] + TrimZeros(s)
  {
    var t := front + [c] + s;
    if s == "" {
      assert t == front + [c];
    } else {
      assert t[|t| - 1] == s[|s| - 1];
      if s[|s| - 1] == '0' {
        assert t[..|t| - 1] == front + [c] + s[..|s| - 1];
        TrimZerosAfter(front, c, s[..|s| - 1]);
      }
    }
  }

  lemma PointInPlain(negative: bool, whole: string, frac: string)
    requires AllDigits(whole) && AllDigits(frac)
    ensures '.' in PlainText(negative, whole, frac) <==> frac != ""
  {
    DigitsExclude(whole);
    var front := (if negative then "-" else "") + whole;
    if frac != "" {
      assert PlainText(negative, whole, frac)[|front|] == '.';
    } else {
      assert PlainText(negative, whole, frac) == front + "";
    }
  }

  /** Canonical text is the same numeral without its trailing fraction zeros. */
  lemma CanonicalDecimalTrims(negative: bool, whole: string, frac: string)
    requires AllDigits(whole) && AllDigits(frac)
    ensures CanonicalDecimal(PlainText(negative, whole, frac)) == PlainText(negative, whole, TrimZeros(frac))
  {
    hide TrimZeros;
    PointInPlain(negative, whole, frac);
    var front := (if negative then "-" else "") + whole;
    if frac != "" {
      assert PlainText(negative, whole, frac) == front + ['.'] + frac;
      TrimZerosAfter(front, '.', frac);
      DigitsExclude(TrimZeros(frac));
      PointDropped(front, TrimZeros(frac));
      assert TrimZeros(frac) == "" ==> PlainText(negative, whole, "") == front + "" == front;
      assert TrimZeros(frac) != "" ==> PlainText(negative, whole, TrimZeros(frac)) == front + ['.'] + TrimZeros(frac);
    }
  }

  /** The second replace: a bare point at the end goes, a point before digits stays. */
  lemma PointDropped(front: string, short: string)
    requires '.' !in short
    ensures var t := front + ['.'] + short;
      (if t[|t| - 1] == '.' then t[..|t| - 1] else t) == if short == "" then front else t
  {
    var t := front + ['.'] + short;
    if short == "" {
      assert t[..|t| - 1] == front;
    } else {
      assert t[|t| - 1] == short[|short| - 1];
    }
  }

  /** It keeps the exact value, whatever number of decimals, and doing it twice changes nothing. */
  lemma CanonicalDecimalKeepsValue(negative: bool, whole: string, frac: string)
    requires AllDigits(whole) && AllDigits(frac)
    ensures var t := PlainText(negative, whole, frac);
      var short := TrimZeros(frac);
      && CanonicalDecimal(t) == PlainText(negative, whole, short)
      && AllDigits(short) && AllDigits(whole + short) && AllDigits(whole + frac)
      && ParseNat(whole + frac) == ParseNat(whole + short) * Pow10(|frac| - |short|)
      && CanonicalDecimal(CanonicalDecimal(t)) == CanonicalDecimal(t)
  {
    hide PlainText;
    var short := TrimZeros(frac);
    CanonicalDecimalTrims(negative, whole, frac);
    CanonicalDecimalTrims(negative, whole, short);
    assert TrimZeros(short) == short;
    TrimZerosSplit(frac);
    ParseAppendedZeros(whole + short, |frac| - |short|);
    assert whole + frac == whole + short + Zeros(|frac| - |short|);
  }

  /** An invoice amount as its numeric(10, 4) column prints it. */
  function StoredAmount(u: int): string {
    PlainText(u < 0, WholeDigits(u), PadZeros(ShowNat(Rounding.Abs(u) % SCALE), 4))
  }

  /** An amount survives storage and export: its stored text becomes the text it was computed as. */
  lemma AmountSurvivesExport(u: int)
    ensures CanonicalDecimal(StoredAmount(u)) == AmountText.Text(u)
  {
    hide PlainText;
    CanonicalDecimalTrims(u < 0, WholeDigits(u), PadZeros(ShowNat(Rounding.Abs(u) % SCALE), 4));
  }

  lemma SplitSigned(negative: bool, whole: string, frac: string)
    requires AllDigits(whole) && AllDigits(frac)
    ensures SplitPoint(PlainText(negative, whole, frac)) == ((if negative then "-" else "") + whole, frac)
  {
    DigitsExclude(whole);
    DigitsExclude(frac);
    var front := (if negative then "-" else "") + whole;
    PointSplits(front, frac);
    assert PlainText(negative, whole, frac) == front + (if frac == "" then "" else "." + frac);
  }

  lemma NumericRoundTrip(negative: bool, whole: string, frac: string)
    requires AllDigits(whole) && AllDigits(frac)
    ensures PgNumeric(CanonicalDecimal(PlainText(negative, whole, frac)), |frac|) == PlainText(negative, whole, frac)
  {
    hide CanonicalDecimal, SplitPoint;
    var short := TrimZeros(frac);
    CanonicalDecimalTrims(negative, whole, frac);
    SplitSigned(negative, whole, short);
    TrimZerosSplit(frac);
    var front := (if negative then "-" else "") + whole;
    if frac != "" {
      assert front + "." + short + Zeros(|frac| - |short|) == front + ("." + frac);
    }
  }

  // ---- timestamps ----

  /** `fromDb(value).toISOString()` of a timestamp(3) text: 'T', three decimals, 'Z'. */
  function ToIso(value: string): string {
    var (seconds, frac) := SplitPoint(ReplaceFirst(value, ' ', "T"));
    seconds + "." + frac + (if |frac| < 3 then Zeros(3 - |frac|) else "") + "Z"
  }

  /** ISO text stored in a timestamp(3) column and read back: its Z ignored, decimals without trailing zeros. */
  function PgTimestamp(iso: string): string {
    var (seconds, frac) := SplitPoint(iso);
    var short := TrimZeros(if frac != "" && frac[|frac| - 1] == 'Z' then frac[..|frac| - 1] else frac);
    ReplaceFirst(seconds, 'T', " ") + (if short == "" then "" else "." + short)
  }

  /** How the database prints a timestamp(3): date, time, and the milliseconds unless they are 0. */
  function DbTimestamp(date: string, time: string, millis: string): string {
    date + " " + time + (if TrimZeros(millis) == "" then "" else "." + TrimZeros(millis))
  }

  /** `text` with a digit wherever `shape` has a 9, and otherwise the characters of `shape`. */
  predicate HasShape(text: string, shape: string) {
    && |text| == |shape|
    && forall i :: 0 <= i < |text| ==> if shape[i] == '9' then '0' <= text[i] <= '9' else text[i] == shape[i]
  }

  /** A timestamp(3) of the years 0001 to 9999; others are printed with more digits or an era. */
  ghost predicate IsDateAndTime(date: string, time: string, millis: string) {
    HasShape(date, "9999-99-99") && HasShape(time, "99:99:99") && HasShape(millis, "999")
  }

  lemma DateAndTimeExclude(date: string, time: string, millis: string)
    requires IsDateAndTime(date, time, millis)
    ensures ' ' !in date && 'T' !in date && '.' !in date + "T" + time
    ensures '.' !in TrimZeros(millis) && '.' !in millis + "Z"
  {
    assert AllDigits(millis);
    DigitsExclude(millis);
    DigitsExclude(TrimZeros(millis));
  }

  lemma TimestampToIso(date: string, time: string, millis: string)
    requires IsDateAndTime(date, time, millis)
    ensures ToIso(DbTimestamp(date, time, millis)) == date + "T" + time + "." + millis + "Z"
  {
    hide ReplaceFirst, SplitPoint, TrimZeros, IsDateAndTime;
    var short := TrimZeros(millis);
    var tail := if short == "" then "" else "." + short;
    DateAndTimeExclude(date, time, millis);
    assert DbTimestamp(date, time, millis) == date + [' '] + (time + tail);
    ReplaceFirstAt(date, ' ', time + tail, "T");
    assert date + "T" + (time + tail) == date + "T" + time + tail;
    PointSplits(date + "T" + time, short);
    MillisRestored(date, time, millis);
  }

  lemma MillisRestored(date: string, time: string, millis: string)
    requires IsDateAndTime(date, time, millis)
    ensures TrimZeros(millis) + (if |TrimZeros(millis)| < 3 then Zeros(3 - |TrimZeros(millis)|) else "") == millis
  {
    assert AllDigits(millis);
    TrimZerosSplit(millis);
  }

  lemma IsoToTimestamp(date: string, time: string, millis: string)
    requires IsDateAndTime(date, time, millis)
    ensures PgTimestamp(date + "T" + time + "." + millis + "Z") == DbTimestamp(date, time, millis)
  {
    hide ReplaceFirst, SplitPoint, TrimZeros, IsDateAndTime;
    var seconds, frac := date + "T" + time, millis + "Z";
    DateAndTimeExclude(date, time, millis);
    PointSplits(seconds, frac);
    assert date + "T" + time + "." + millis + "Z" == seconds + ("." + frac);
    assert frac[..|frac| - 1] == millis;
    assert seconds == date + ['T'] + time;
    ReplaceFirstAt(date, 'T', time, " ");
  }

  // ---- rows ----

  function CodecOf(meta: ModelMeta, field: string): Codec {
    if field in meta.codecs then meta.codecs[field] else Plain
  }

  function ColumnOf(meta: ModelMeta, field: string): string {
    if field in meta.columns then meta.columns[field] else field
  }

  function BackupValue(codec: Codec, v: Value): Value {
    if !v.Text? then v
    else
      match codec
      case Timestamp => Text(ToIso(v.s))
      case Numeric(_) => Text(CanonicalDecimal(v.s))
      case Plain => v
  }

  function StoredValue(codec: Codec, v: Value): Value {
    if !v.Text? then v
    else
      match codec
      case Timestamp => Text(PgTimestamp(v.s))
      case Numeric(scale) => Text(PgNumeric(v.s, scale))
      case Plain => v
  }

  /** Fields a database row has: no two share a column (a field unknown to the contract keeps its name). */
  ghost predicate DistinctColumns(meta: ModelMeta, row: Row) {
    forall f, g :: f in row && g in row && ColumnOf(meta, f) == ColumnOf(meta, g) ==> f == g
  }

  /** `out` holds exactly the converted cells of the fields in `done`. */
  ghost predicate Converted(meta: ModelMeta, row: Row, done: set<string>, out: Row)
    requires done <= row.Keys
  {
    && (forall f :: f in done ==>
          ColumnOf(meta, f) in out && out[ColumnOf(meta, f)] == BackupValue(CodecOf(meta, f), row[f]))
    && (forall c :: c in out ==> exists f :: f in done && ColumnOf(meta, f) == c)
  }

  lemma ConvertOne(meta: ModelMeta, row: Row, done: set<string>, out: Row, field: string)
    requires DistinctColumns(meta, row) && done <= row.Keys && field in row && field !in done
    requires Converted(meta, row, done, out)
    ensures var cell := BackupValue(CodecOf(meta, field), row[field]);
      Converted(meta, row, done + {field}, out[ColumnOf(meta, field) := cell])
  {
  }

  method RowToBackup(meta: ModelMeta, row: Row) returns (out: Row)
    requires DistinctColumns(meta, row)
    ensures out == BackupRow(meta, row)
  {
    out := map[];
    var todo := row.Keys;
    while todo != {}
      invariant todo <= row.Keys
      invariant Converted(meta, row, row.Keys - todo, out)
      decreases todo
    {
      var field :| field in todo;
      var column := ColumnOf(meta, field);
      ConvertOne(meta, row, row.Keys - todo, out, field);
      out := out[column := BackupValue(CodecOf(meta, field), row[field])];
      todo := todo - {field};
      assert row.Keys - todo == row.Keys - (todo + {field}) + {field};
    }
    assert row.Keys - todo == row.Keys;
    assert out.Keys == BackupRow(meta, row).Keys;
  }

  ghost function BackupRow(meta: ModelMeta, row: Row): Row
    requires DistinctColumns(meta, row)
  {
    map f | f in row :: ColumnOf(meta, f) := BackupValue(CodecOf(meta, f), row[f])
  }

  /** Columns of the backup that are still columns, back under their field names. */
  function RowFromBackup(meta: ModelMeta, row: Row): Row {
    map f | f in meta.columns && meta.columns[f] in row :: row[meta.columns[f]]
  }

  /** What the table holds once the row is inserted. */
  function StoredRow(meta: ModelMeta, row: Row): Row {
    map f | f in row :: StoredValue(CodecOf(meta, f), row[f])
  }

  /** A cell as the database prints it. */
  ghost predicate DatabaseCell(codec: Codec, v: Value) {
    v.Text? ==>
      match codec
      case Timestamp => exists date, time, millis ::
        IsDateAndTime(date, time, millis) && v.s == DbTimestamp(date, time, millis)
      case Numeric(scale) => exists negative, whole, frac ::
        AllDigits(whole) && AllDigits(frac) && |frac| == scale && v.s == PlainText(negative, whole, frac)
      case Plain => true
  }

  ghost predicate DatabaseRow(meta: ModelMeta, row: Row) {
    row.Keys <= meta.columns.Keys && forall f :: f in row ==> DatabaseCell(CodecOf(meta, f), row[f])
  }

  lemma CellRoundTrip(codec: Codec, v: Value)
    requires DatabaseCell(codec, v)
    ensures StoredValue(codec, BackupValue(codec, v)) == v
  {
    hide ToIso, PgTimestamp, CanonicalDecimal, PgNumeric, DbTimestamp, PlainText;
    if v.Text? {
      match codec {
        case Timestamp =>
          var date, time, millis :| IsDateAndTime(date, time, millis) && v.s == DbTimestamp(date, time, millis);
          TimestampToIso(date, time, millis);
          IsoToTimestamp(date, time, millis);
        case Numeric(scale) =>
          var negative, whole, frac :|
            AllDigits(whole) && AllDigits(frac) && |frac| == scale && v.s == PlainText(negative, whole, frac);
          NumericRoundTrip(negative, whole, frac);
        case Plain =>
      }
    }
  }

  /** `out` is the portable form of a cell: ISO text, or a numeral without trailing fraction zeros. */
  ghost predicate IsPortable(codec: Codec, v: Value, out: Value) {
    if !v.Text? then out == v
    else
      match codec
      case Timestamp => exists date, time, millis ::
        && IsDateAndTime(date, time, millis) && v.s == DbTimestamp(date, time, millis)
        && out == Text(date + "T" + time + "." + millis + "Z")
      case Numeric(scale) => exists negative, whole, short ::
        && AllDigits(whole) && AllDigits(short) && (short != "" ==> short[|short| - 1] != '0') && |short| <= scale
        && v.s == PlainText(negative, whole, short + Zeros(scale - |short|))
        && out == Text(PlainText(negative, whole, short))
      case Plain => out == v
  }

  lemma CellIsPortable(codec: Codec, v: Value)
    requires DatabaseCell(codec, v)
    ensures IsPortable(codec, v, BackupValue(codec, v))
  {
    hide ToIso, CanonicalDecimal, DbTimestamp, PlainText, TrimZeros, IsDateAndTime;
    if v.Text? {
      match codec {
        case Timestamp =>
          var date, time, millis :| IsDateAndTime(date, time, millis) && v.s == DbTimestamp(date, time, millis);
          TimestampToIso(date, time, millis);
        case Numeric(scale) =>
          var negative, whole, frac :|
            AllDigits(whole) && AllDigits(frac) && |frac| == scale && v.s == PlainText(negative, whole, frac);
          CanonicalDecimalTrims(negative, whole, frac);
          TrimZerosSplit(frac);
        case Plain =>
      }
    }
  }

  /** The exported row: each cell in its portable form, under the name of its column, and nothing else. */
  lemma ExportedRow(meta: ModelMeta, row: Row)
    requires meta.Valid() && DatabaseRow(meta, row)
    ensures DistinctColumns(meta, row)
    ensures var out := BackupRow(meta, row);
      && out.Keys == (set f | f in row :: meta.columns[f])
      && forall f :: f in row ==> IsPortable(meta.codecs[f], row[f], out[meta.columns[f]])
  {
    hide BackupValue, DatabaseCell, IsPortable;
    KnownFieldsDistinct(meta, row);
    var out := BackupRow(meta, row);
    forall f | f in row
      ensures ColumnOf(meta, f) == meta.columns[f] && meta.columns[f] in out
      ensures IsPortable(meta.codecs[f], row[f], out[meta.columns[f]])
    {
      assert ColumnOf(meta, f) == meta.columns[f];
      CellIsPortable(meta.codecs[f], row[f]);
    }
  }

  lemma KnownFieldsDistinct(meta: ModelMeta, row: Row)
    requires meta.Valid() && row.Keys <= meta.columns.Keys
    ensures DistinctColumns(meta, row)
  {
  }

  lemma BackupRowBack(meta: ModelMeta, row: Row)
    requires meta.Valid() && row.Keys <= meta.columns.Keys
    ensures DistinctColumns(meta, row)
    ensures var back := RowFromBackup(meta, BackupRow(meta, row));
      back.Keys == row.Keys && forall f :: f in row ==> back[f] == BackupValue(CodecOf(meta, f), row[f])
  {
    hide BackupValue;
    KnownFieldsDistinct(meta, row);
    var backup := BackupRow(meta, row);
    forall f | f in row
      ensures meta.columns[f] in backup && backup[meta.columns[f]] == BackupValue(CodecOf(meta, f), row[f])
    {
      assert ColumnOf(meta, f) == meta.columns[f];
    }
    forall f | f in meta.columns && meta.columns[f] in backup
      ensures f in row
    {
      var g :| g in row && ColumnOf(meta, g) == meta.columns[f];
    }
    assert RowFromBackup(meta, backup).Keys == row.Keys;
  }

  /** A row exported, imported and stored is the row it was, renamed fields, decimals and timestamps included. */
  lemma RowRoundTrip(meta: ModelMeta, row: Row)
    requires meta.Valid() && DatabaseRow(meta, row)
    ensures DistinctColumns(meta, row)
    ensures StoredRow(meta, RowFromBackup(meta, BackupRow(meta, row))) == row
  {
    hide BackupValue, StoredValue, DatabaseCell, BackupRow, RowFromBackup, DistinctColumns;
    BackupRowBack(meta, row);
    var back := RowFromBackup(meta, BackupRow(meta, row));
    forall f | f in row
      ensures StoredValue(CodecOf(meta, f), back[f]) == row[f]
    {
      CellRoundTrip(CodecOf(meta, f), row[f]);
    }
    assert StoredRow(meta, back).Keys == row.Keys;
  }

  /** Columns the schema no longer has are dropped, and change nothing else. */
  lemma DroppedColumns(meta: ModelMeta, row: Row, extra: Row)
    requires extra.Keys !! meta.columns.Values
    ensures RowFromBackup(meta, row + extra) == RowFromBackup(meta, row)
  {
    assert forall f :: f in meta.columns ==> meta.columns[f] in meta.columns.Values;
  }
}
