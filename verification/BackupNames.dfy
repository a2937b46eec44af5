/** Names of backup files and their order (`src/scripts/db-backup.core.ts`, `src/scripts/pg-dump.core.ts`). */
module BackupNames {
  import opened Numerals

  const PREFIX := "db-backup-"
  const SUFFIX := ".json"

  /** The fields of `Date.toISOString()`, in the order they are printed. */
  datatype Instant = Instant(year: nat, month: nat, day: nat, hour: nat, minute: nat, second: nat, milli: nat) {
    function Fields(): (fields: seq<nat>)
      ensures |fields| == 7
    {
      [year, month, day, hour, minute, second, milli]
    }

    /** Every field fits its place: a four-digit year, and so on. */
    ghost predicate Fits() {
      forall k :: 0 <= k < 7 ==> Fields()[k] < Pow10(WIDTHS[k])
    }

    ghost predicate Before(other: Instant) {
      LexLess(Fields(), other.Fields())
    }
  }

  const WIDTHS: seq<nat> := [4, 2, 2, 2, 2, 2, 3]
  const ISO_MARKS := "--T::.Z"

  /** The fields from the k-th on, zero-padded, each followed by its mark. */
  function Stamp(fields: seq<nat>, marks: string, k: nat): string
    requires |fields| == |marks| == 7 && k <= 7
    decreases 7 - k
  {
    if k == 7 then "" else PadZeros(ShowNat(fields[k]), WIDTHS[k]) + [marks[k]] + Stamp(fields, marks, k + 1)
  }

  function ToIsoString(date: Instant): string {
    Stamp(date.Fields(), ISO_MARKS, 0)
  }

  /** `s.replace(/[:.]/g, '-')`. */
  function Dashed(s: string): (r: string)
    ensures |r| == |s|
    ensures forall i :: 0 <= i < |s| ==> r[i] == if s[i] == ':' || s[i] == '.' then '-' else s[i]
  {
    seq(|s|, i requires 0 <= i < |s| => if s[i] == ':' || s[i] == '.' then '-' else s[i])
  }

  function BuildBackupFilename(date: Instant): string {
    PREFIX + Dashed(ToIsoString(date)) + SUFFIX
  }

  function BuildDumpFilename(date: Instant): string {
    "pg-dump-" + Dashed(ToIsoString(date)) + ".dump"
  }

  predicate IsLineTerminator(c: char) {
    c == '\n' || c == '\r' || c == '\U{2028}' || c == '\U{2029}'
  }

  /** `/^db-backup-.*\.json$/`. */
  predicate IsBackup(name: string) {
    && |name| >= |PREFIX| + |SUFFIX|
    && name[..|PREFIX|] == PREFIX
    && name[|name| - |SUFFIX|..] == SUFFIX
    && forall i :: |PREFIX| <= i < |name| - |SUFFIX| ==> !IsLineTerminator(name[i])
  }

  /** The names the pattern accepts, told from their parts. */
  lemma IsBackupExactly(name: string)
    ensures IsBackup(name)
        <==> exists middle :: name == "db-backup-" + middle + ".json" && NoLineTerminator(middle)
  {
    if IsBackup(name) {
      var middle := name[|PREFIX|..|name| - |SUFFIX|];
      assert name == "db-backup-" + middle + ".json";
      assert forall i :: 0 <= i < |middle| ==> middle[i] == name[|PREFIX| + i];
    }
    if middle :| name == "db-backup-" + middle + ".json" && NoLineTerminator(middle) {
      assert name[|name| - |SUFFIX|..] == SUFFIX;
      assert forall i :: |PREFIX| <= i < |name| - |SUFFIX| ==> name[i] == middle[i - |PREFIX|];
    }
  }

  ghost predicate NoLineTerminator(s: string) {
    forall i :: 0 <= i < |s| ==> !IsLineTerminator(s[i])
  }

  /**
   Place of a character in the order of UTF-16 code units: those from U+E000 to U+FFFF come after
   the ones beyond U+FFFF, which are written with surrogates (0xD800 to 0xDFFF).
   */
  function Place(c: char): (p: nat) {
    if 0xE000 <= c as int <= 0xFFFF then c as int + 0x110000 else c as int
  }

  /** The order of `sort()`: by code units, a proper prefix first. */
  predicate Less(a: string, b: string) {
    if a == "" then b != ""
    else b != "" && (Place(a[0]) < Place(b[0]) || (a[0] == b[0] && Less(a[1..], b[1..])))
  }

  /** The UTF-16 code units of a text (section 3.9 of the Unicode Standard). */
  function CodeUnits(s: string): seq<nat> {
    if s == "" then [] else UnitsOfChar(s[0]) + CodeUnits(s[1..])
  }

  function UnitsOfChar(c: char): (units: seq<nat>)
    ensures 1 <= |units| <= 2
  {
    var v := c as int;
    if v <= 0xFFFF then [v] else [0xD800 + (v - 0x10000) / 0x400, 0xDC00 + (v - 0x10000) % 0x400]
  }

  ghost predicate UnitsLess(a: seq<nat>, b: seq<nat>) {
    if a == [] then b != []
    else b != [] && (a[0] < b[0] || (a[0] == b[0] && UnitsLess(a[1..], b[1..])))
  }

  /** Comparing characters by their place is comparing the texts code unit by code unit. */
  lemma {:induction false} LessIsCodeUnitOrder(a: string, b: string)
    ensures Less(a, b) <==> UnitsLess(CodeUnits(a), CodeUnits(b))
  {
    if a != "" && b != "" {
      LessIsCodeUnitOrder(a[1..], b[1..]);
      UnitsLessOfChars(a[0], b[0], CodeUnits(a[1..]), CodeUnits(b[1..]));
    }
  }

  lemma UnitsLessOfChars(c: char, d: char, x: seq<nat>, y: seq<nat>)
    ensures UnitsLess(UnitsOfChar(c) + x, UnitsOfChar(d) + y)
        <==> Place(c) < Place(d) || (c == d && UnitsLess(x, y))
  {
    var p, q := UnitsOfChar(c) + x, UnitsOfChar(d) + y;
    assert p[1..] == UnitsOfChar(c)[1..] + x && q[1..] == UnitsOfChar(d)[1..] + y;
    if |UnitsOfChar(c)| == 1 {
      assert UnitsOfChar(c)[1..] + x == x;
    } else {
      assert p[1..][1..] == x;
    }
    if |UnitsOfChar(d)| == 1 {
      assert UnitsOfChar(d)[1..] + y == y;
    } else {
      assert q[1..][1..] == y;
    }
  }

  ghost predicate LexLess(a: seq<nat>, b: seq<nat>) {
    a != [] && b != [] && (a[0] < b[0] || (a[0] == b[0] && LexLess(a[1..], b[1..])))
  }

  lemma {:induction false} LessTransitive(a: string, b: string, c: string)
    requires Less(a, b) && Less(b, c)
    ensures Less(a, c)
  {
    if a != "" && a[0] == b[0] && b[0] == c[0] {
      LessTransitive(a[1..], b[1..], c[1..]);
    }
  }

  lemma {:induction false} LessTotal(a: string, b: string)
    ensures !Less(a, a)
    ensures a != b ==> (Less(a, b) <==> !Less(b, a))
    ensures a == b || Less(a, b) || Less(b, a)
  {
    if a != "" {
      LessTotal(a[1..], if b == "" then "" else b[1..]);
      if b != "" && a[0] == b[0] && a[1..] == b[1..] {
        assert a == [a[0]] + a[1..] && b == [b[0]] + b[1..];
      }
    }
  }

  /** A field as the name spells it: its digits, padded with zeros to the width. */
  function Digits(v: nat, width: nat): string {
    PadZeros(ShowNat(v), width)
  }

  /** The name of a backup, spelt out: `db-backup-YYYY-MM-DDThh-mm-ss-mmmZ.json`. */
  lemma BackupNameSpelt(d: Instant)
    ensures BuildBackupFilename(d)
         == "db-backup-" + Digits(d.year, 4) + "-" + Digits(d.month, 2) + "-" + Digits(d.day, 2)
            + "T" + Digits(d.hour, 2) + "-" + Digits(d.minute, 2) + "-" + Digits(d.second, 2)
            + "-" + Digits(d.milli, 3) + "Z.json"
  {
    hide PadZeros, ShowNat, Stamp, Digits;
    var fields, marks := d.Fields(), "--T---Z";
    DashedStamp(fields, ISO_MARKS, 0);
    assert Dashed(ISO_MARKS) == marks;
    StampFrom(fields, marks, 7);
    Extended(PREFIX, fields, marks, 0);
    var y := PREFIX + Digits(d.year, 4) + "-";
    Extended(y, fields, marks, 1);
    y := y + Digits(d.month, 2) + "-";
    Extended(y, fields, marks, 2);
    y := y + Digits(d.day, 2) + "T";
    Extended(y, fields, marks, 3);
    y := y + Digits(d.hour, 2) + "-";
    Extended(y, fields, marks, 4);
    y := y + Digits(d.minute, 2) + "-";
    Extended(y, fields, marks, 5);
    y := y + Digits(d.second, 2) + "-";
    Extended(y, fields, marks, 6);
    y := y + Digits(d.milli, 3);
    assert y + "Z" + "" + SUFFIX == y + "Z.json";
  }

  lemma Extended(front: string, fields: seq<nat>, marks: string, k: nat)
    requires |fields| == |marks| == 7 && k < 7
    ensures front + Stamp(fields, marks, k)
         == front + Digits(fields[k], WIDTHS[k]) + [marks[k]] + Stamp(fields, marks, k + 1)
  {
    hide PadZeros, ShowNat, Digits;
    StampFrom(fields, marks, k);
  }

  lemma StampFrom(fields: seq<nat>, marks: string, k: nat)
    requires |fields| == |marks| == 7 && k <= 7
    ensures Stamp(fields, marks, k)
         == if k == 7 then "" else Digits(fields[k], WIDTHS[k]) + [marks[k]] + Stamp(fields, marks, k + 1)
  {
  }

  /** Strings that start with parts of one width compare by those parts first. */
  lemma {:induction false} LessOfConcat(a: string, b: string, x: string, y: string)
    requires |a| == |b|
    ensures Less(a + x, b + y) <==> Less(a, b) || (a == b && Less(x, y))
  {
    if a == "" {
      assert a + x == x && b + y == y;
    } else {
      LessOfConcat(a[1..], b[1..], x, y);
      assert (a + x)[1..] == a[1..] + x && (b + y)[1..] == b[1..] + y;
      assert a == b <==> a[0] == b[0] && a[1..] == b[1..] by {
        assert a == [a[0]] + a[1..] && b == [b[0]] + b[1..];
      }
    }
  }

  lemma {:induction false} LessOfDigits(a: string, b: string)
    requires |a| == |b| && AllDigits(a) && AllDigits(b)
    ensures Less(a, b) <==> ParseNat(a) < ParseNat(b)
  {
    if a != "" {
      var n := |a| - 1;
      var front, front', x, y := a[..n], b[..n], [a[n]], [b[n]];
      assert a == front + x && b == front' + y;
      LessOfDigits(front, front');
      LessOfConcat(front, front', x, y);
      if ParseNat(front) == ParseNat(front') {
        ParseInjective(front, front');
      }
      assert Less(x, y) <==> DigitValue(a[n]) < DigitValue(b[n]);
    }
  }

  lemma PaddedField(v: nat, width: nat)
    requires 1 <= width && v < Pow10(width)
    ensures var s := PadZeros(ShowNat(v), width);
      |s| == width && AllDigits(s) && ParseNat(s) == v
  {
    ShowFits(v, width);
    ParseShow(v);
    ParsePadded(ShowNat(v), width);
  }

  lemma {:induction false} DashedStamp(fields: seq<nat>, marks: string, k: nat)
    requires |fields| == |marks| == 7 && k <= 7
    ensures Dashed(Stamp(fields, marks, k)) == Stamp(fields, Dashed(marks), k)
    decreases 7 - k
  {
    if k < 7 {
      hide PadZeros, ShowNat;
      DashedStamp(fields, marks, k + 1);
      var digits, rest := PadZeros(ShowNat(fields[k]), WIDTHS[k]), Stamp(fields, marks, k + 1);
      DashedConcat(digits + [marks[k]], rest);
      DashedConcat(digits, [marks[k]]);
      DashedDigits(digits);
      assert Dashed([marks[k]]) == [Dashed(marks)[k]];
    }
  }

  lemma DashedConcat(a: string, b: string)
    ensures Dashed(a + b) == Dashed(a) + Dashed(b)
  {
  }

  lemma DashedDigits(s: string)
    requires AllDigits(s)
    ensures Dashed(s) == s
  {
    assert forall i :: 0 <= i < |s| ==> IsDigit(s[i]);
  }

  lemma {:induction false} LessOfStamps(a: seq<nat>, b: seq<nat>, marks: string, k: nat)
    requires |a| == |b| == |marks| == 7 && k <= 7
    requires forall j :: 0 <= j < 7 ==> a[j] < Pow10(WIDTHS[j]) && b[j] < Pow10(WIDTHS[j])
    ensures |Stamp(a, marks, k)| == |Stamp(b, marks, k)|
    ensures Less(Stamp(a, marks, k), Stamp(b, marks, k)) <==> LexLess(a[k..], b[k..])
    decreases 7 - k
  {
    if k < 7 {
      hide PadZeros, Pow10, Less;
      LessOfStamps(a, b, marks, k + 1);
      var s, t := Stamp(a, marks, k + 1), Stamp(b, marks, k + 1);
      LessOfFields(a[k], b[k], WIDTHS[k], marks[k], s, t);
      LexLessAt(a, b, k);
    }
  }

  lemma LexLessAt(a: seq<nat>, b: seq<nat>, k: nat)
    requires k < |a| && |a| == |b|
    ensures LexLess(a[k..], b[k..]) <==> a[k] < b[k] || (a[k] == b[k] && LexLess(a[k + 1..], b[k + 1..]))
  {
    assert a[k..][1..] == a[k + 1..] && b[k..][1..] == b[k + 1..];
  }

  lemma LessOfFields(v: nat, w: nat, width: nat, mark: char, s: string, t: string)
    requires 1 <= width && v < Pow10(width) && w < Pow10(width)
    ensures var x, y := PadZeros(ShowNat(v), width), PadZeros(ShowNat(w), width);
      && |x| == |y|
      && (Less(x + [mark] + s, y + [mark] + t) <==> v < w || (v == w && Less(s, t)))
  {
    hide ShowNat, PadZeros, Pow10, ParseNat, Less;
    PaddedField(v, width);
    PaddedField(w, width);
    var x, y := PadZeros(ShowNat(v), width), PadZeros(ShowNat(w), width);
    LessOfDigits(x, y);
    LessOfMarked(x, y, mark, s, t);
  }

  lemma LessOfMarked(x: string, y: string, mark: char, s: string, t: string)
    requires |x| == |y|
    ensures Less(x + [mark] + s, y + [mark] + t) <==> Less(x, y) || (x == y && Less(s, t))
  {
    LessOfConcat(x, y, [mark] + s, [mark] + t);
    assert x + [mark] + s == x + ([mark] + s) && y + [mark] + t == y + ([mark] + t);
    assert ([mark] + s)[1..] == s && ([mark] + t)[1..] == t;
  }

  /** Name order is date order. */
  lemma NamesSortByDate(a: Instant, b: Instant)
    requires a.Fits() && b.Fits()
    ensures Less(BuildBackupFilename(a), BuildBackupFilename(b)) <==> a.Before(b)
  {
    hide Less, Stamp, Dashed;
    var x, y := Dashed(ToIsoString(a)), Dashed(ToIsoString(b));
    var marks := Dashed(ISO_MARKS);
    DashedStamp(a.Fields(), ISO_MARKS, 0);
    DashedStamp(b.Fields(), ISO_MARKS, 0);
    LessOfStamps(a.Fields(), b.Fields(), marks, 0);
    assert a.Fields()[0..] == a.Fields() && b.Fields()[0..] == b.Fields();
    LessOfConcat(PREFIX, PREFIX, x + SUFFIX, y + SUFFIX);
    LessOfConcat(x, y, SUFFIX, SUFFIX);
    LessTotal(PREFIX, PREFIX);
    LessTotal(SUFFIX, SUFFIX);
    assert PREFIX + x + SUFFIX == PREFIX + (x + SUFFIX) && PREFIX + y + SUFFIX == PREFIX + (y + SUFFIX);
  }

  lemma {:induction false} StampCharacters(fields: seq<nat>, marks: string, k: nat)
    requires |fields| == |marks| == 7 && k <= 7
    ensures forall i :: 0 <= i < |Stamp(fields, marks, k)| ==>
      IsDigit(Stamp(fields, marks, k)[i]) || Stamp(fields, marks, k)[i] in marks
    decreases 7 - k
  {
    if k < 7 {
      StampCharacters(fields, marks, k + 1);
      var digits := PadZeros(ShowNat(fields[k]), WIDTHS[k]);
      assert marks[k] in marks;
      assert forall i :: 0 <= i < |digits| ==> IsDigit(digits[i]);
    }
  }

  /** Every backup is recognised as one, and no PostgreSQL dump is. */
  lemma BackupsRecognised(date: Instant)
    ensures IsBackup(BuildBackupFilename(date))
    ensures !IsBackup(BuildDumpFilename(date))
  {
    hide Stamp;
    var middle := Dashed(ToIsoString(date));
    StampCharacters(date.Fields(), ISO_MARKS, 0);
    var name := BuildBackupFilename(date);
    assert name[..|PREFIX|] == PREFIX;
    assert name[|name| - |SUFFIX|..] == SUFFIX;
    assert forall i :: |PREFIX| <= i < |name| - |SUFFIX| ==> name[i] == middle[i - |PREFIX|];
    var dump := BuildDumpFilename(date);
    assert dump[0] == 'p' && PREFIX[0] == 'd';
    assert |dump| >= |PREFIX| ==> dump[..|PREFIX|][0] == 'p';
  }
}
