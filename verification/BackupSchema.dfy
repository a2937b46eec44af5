/**
 The models, their order (`src/scripts/db-sync.util.ts`), and the foreign keys of the contract
 (`migrations/app/20261008T0634_baseline/migration.ts`, less the dropped `Task.assigneeId`).
 */
module BackupSchema {

  datatype Model =
    | User | Client | Occupation | ClientOccupation | ClientStatusHistory | RateSheet
    | CompanyContact | Project | ProjectOccupation | Tag | Task | Subtask
    | TaskComment | TaskLabel | TaskAttachment | TimeEntry | TaskActivity | TimeEntryTag
    | ClientTag | Invoice | InvoiceItem | RefreshToken | PasswordResetToken | OAuthAccount
    | AuditLog | TwoFactorBackupCode | TranslationRate | ClientRate | Charge | LanguagePair
    | CustomField

  const MODEL_ORDER: seq<Model> := [
    User, Client, Occupation, ClientOccupation, ClientStatusHistory, RateSheet,
    CompanyContact, Project, ProjectOccupation, Tag, Task, Subtask,
    TaskComment, TaskLabel, TaskAttachment, TimeEntry, TaskActivity, TimeEntryTag,
    ClientTag, Invoice, InvoiceItem, RefreshToken, PasswordResetToken, OAuthAccount,
    AuditLog, TwoFactorBackupCode, TranslationRate, ClientRate, Charge, LanguagePair,
    CustomField
  ]

  /** The place of a model in MODEL_ORDER. */
  function Rank(m: Model): (r: nat)
    ensures r < |MODEL_ORDER|
  {
    match m
    case User => 0
    case Client => 1
    case Occupation => 2
    case ClientOccupation => 3
    case ClientStatusHistory => 4
    case RateSheet => 5
    case CompanyContact => 6
    case Project => 7
    case ProjectOccupation => 8
    case Tag => 9
    case Task => 10
    case Subtask => 11
    case TaskComment => 12
    case TaskLabel => 13
    case TaskAttachment => 14
    case TimeEntry => 15
    case TaskActivity => 16
    case TimeEntryTag => 17
    case ClientTag => 18
    case Invoice => 19
    case InvoiceItem => 20
    case RefreshToken => 21
    case PasswordResetToken => 22
    case OAuthAccount => 23
    case AuditLog => 24
    case TwoFactorBackupCode => 25
    case TranslationRate => 26
    case ClientRate => 27
    case Charge => 28
    case LanguagePair => 29
    case CustomField => 30
  }

  lemma RankIsPlace(m: Model)
    ensures MODEL_ORDER[Rank(m)] == m
  {
    RankAt(Rank(m));
    RankInjective(m, MODEL_ORDER[Rank(m)]);
  }

  lemma RankInjective(m: Model, m': Model)
    ensures Rank(m) == Rank(m') ==> m == m'
  {
  }

  datatype OnDelete = Cascade | SetNull

  /** A field whose value, unless null, is the id of a row of `parent`. */
  datatype ForeignKey = ForeignKey(field: string, parent: Model, onDelete: OnDelete)

  /** Every foreign key points to the id of an earlier model, so none of them to its own. */
  function ForeignKeys(child: Model): (fks: seq<ForeignKey>)
    ensures forall i :: 0 <= i < |fks| ==> Rank(fks[i].parent) < Rank(child) && HasSerialId(fks[i].parent)
  {
    match child
    case User => []
    case Client => [ForeignKey("userId", User, Cascade)]
    case Occupation => [ForeignKey("userId", User, Cascade)]
    case ClientOccupation => [ForeignKey("clientId", Client, Cascade), ForeignKey("occupationId", Occupation, Cascade)]
    case ClientStatusHistory => [ForeignKey("clientId", Client, Cascade), ForeignKey("userId", User, Cascade)]
    case RateSheet => [
      ForeignKey("clientId", Client, SetNull),
      ForeignKey("occupationId", Occupation, SetNull),
      ForeignKey("userId", User, Cascade)]
    case CompanyContact => [ForeignKey("clientId", Client, Cascade)]
    case Project => [
      ForeignKey("clientId", Client, SetNull),
      ForeignKey("rateSheetId", RateSheet, SetNull),
      ForeignKey("userId", User, SetNull)]
    case ProjectOccupation => [
      ForeignKey("occupationId", Occupation, Cascade),
      ForeignKey("projectId", Project, Cascade)]
    case Tag => [ForeignKey("userId", User, Cascade)]
    case Task => [ForeignKey("projectId", Project, Cascade)]
    case Subtask => [ForeignKey("taskId", Task, Cascade)]
    case TaskComment => [ForeignKey("authorId", User, Cascade), ForeignKey("taskId", Task, Cascade)]
    case TaskLabel => [ForeignKey("taskId", Task, Cascade)]
    case TaskAttachment => [ForeignKey("taskId", Task, Cascade)]
    case TimeEntry => [
      ForeignKey("occupationId", Occupation, SetNull),
      ForeignKey("projectId", Project, SetNull),
      ForeignKey("subtaskId", Subtask, SetNull),
      ForeignKey("taskId", Task, SetNull),
      ForeignKey("userId", User, Cascade)]
    case TaskActivity => [
      ForeignKey("taskId", Task, Cascade),
      ForeignKey("timeEntryId", TimeEntry, SetNull),
      ForeignKey("userId", User, Cascade)]
    case TimeEntryTag => [ForeignKey("tagId", Tag, Cascade), ForeignKey("timeEntryId", TimeEntry, Cascade)]
    case ClientTag => [ForeignKey("clientId", Client, Cascade), ForeignKey("tagId", Tag, Cascade)]
    case Invoice => [ForeignKey("clientId", Client, SetNull), ForeignKey("userId", User, Cascade)]
    case InvoiceItem => [
      ForeignKey("invoiceId", Invoice, Cascade),
      ForeignKey("projectId", Project, SetNull),
      ForeignKey("timeEntryId", TimeEntry, SetNull)]
    case RefreshToken => [ForeignKey("userId", User, Cascade)]
    case PasswordResetToken => [ForeignKey("userId", User, Cascade)]
    case OAuthAccount => [ForeignKey("userId", User, Cascade)]
    case AuditLog => [ForeignKey("userId", User, Cascade)]
    case TwoFactorBackupCode => [ForeignKey("userId", User, Cascade)]
    case TranslationRate => [
      ForeignKey("clientId", Client, SetNull),
      ForeignKey("occupationId", Occupation, SetNull),
      ForeignKey("userId", User, Cascade)]
    case ClientRate => [ForeignKey("clientId", Client, Cascade), ForeignKey("userId", User, Cascade)]
    case Charge => [ForeignKey("occupationId", Occupation, Cascade)]
    case LanguagePair => [ForeignKey("occupationId", Occupation, Cascade)]
    case CustomField => [ForeignKey("occupationId", Occupation, Cascade)]
  }

  /** MODEL_ORDER lists every model exactly once, and every model after all models it refers to. */
  lemma OrderIsTopological()
    ensures forall m: Model :: m in MODEL_ORDER
    ensures forall i, j :: 0 <= i < j < |MODEL_ORDER| ==> MODEL_ORDER[i] != MODEL_ORDER[j]
    ensures forall i, k :: 0 <= i < |MODEL_ORDER| && 0 <= k < |ForeignKeys(MODEL_ORDER[i])| ==>
      ForeignKeys(MODEL_ORDER[i])[k].parent in MODEL_ORDER[..i]
  {
    forall m: Model
      ensures m in MODEL_ORDER
    {
      RankIsPlace(m);
    }
    forall i | 0 <= i < |MODEL_ORDER|
      ensures Rank(MODEL_ORDER[i]) == i
    {
      RankAt(i);
    }
    forall i, k | 0 <= i < |MODEL_ORDER| && 0 <= k < |ForeignKeys(MODEL_ORDER[i])|
      ensures ForeignKeys(MODEL_ORDER[i])[k].parent in MODEL_ORDER[..i]
    {
      var parent := ForeignKeys(MODEL_ORDER[i])[k].parent;
      RankIsPlace(parent);
      assert MODEL_ORDER[..i][Rank(parent)] == parent;
    }
  }

  lemma RankAt(i: nat)
    requires i < |MODEL_ORDER|
    ensures Rank(MODEL_ORDER[i]) == i
  {
    hide Rank;
    if i < 5 {
      RankBelow5(i);
    } else if i < 10 {
      RankBelow10(i);
    } else if i < 15 {
      RankBelow15(i);
    } else if i < 20 {
      RankBelow20(i);
    } else if i < 25 {
      RankBelow25(i);
    } else {
      RankBelow31(i);
    }
  }

  lemma RankBelow5(i: nat)
    requires i < 5
    ensures Rank(MODEL_ORDER[i]) == i
  {
  }

  lemma RankBelow10(i: nat)
    requires 5 <= i < 10
    ensures Rank(MODEL_ORDER[i]) == i
  {
  }

  lemma RankBelow15(i: nat)
    requires 10 <= i < 15
    ensures Rank(MODEL_ORDER[i]) == i
  {
  }

  lemma RankBelow20(i: nat)
    requires 15 <= i < 20
    ensures Rank(MODEL_ORDER[i]) == i
  {
  }

  lemma RankBelow25(i: nat)
    requires 20 <= i < 25
    ensures Rank(MODEL_ORDER[i]) == i
  {
  }

  lemma RankBelow31(i: nat)
    requires 25 <= i < 31
    ensures Rank(MODEL_ORDER[i]) == i
  {
  }

  // ---- keys ----

  /** `orderByFor`: the primary key, one field or the pair of a join table. */
  function OrderByFor(m: Model): seq<string> {
    match m
    case TimeEntryTag => ["timeEntryId", "tagId"]
    case ClientTag => ["clientId", "tagId"]
    case ClientOccupation => ["clientId", "occupationId"]
    case ProjectOccupation => ["projectId", "occupationId"]
    case _ => ["id"]
  }

  predicate HasSerialId(m: Model) {
    !m.TimeEntryTag? && !m.ClientTag? && !m.ClientOccupation? && !m.ProjectOccupation?
  }

  /** Models without an id are join tables: each key field is a cascading reference. */
  lemma JoinTables(m: Model)
    requires !HasSerialId(m)
    ensures |ForeignKeys(m)| == |OrderByFor(m)| == 2
    ensures forall i :: 0 <= i < 2 ==> ForeignKeys(m)[i].field in OrderByFor(m) && ForeignKeys(m)[i].onDelete == Cascade
    ensures ForeignKeys(m)[0].field != ForeignKeys(m)[1].field
  {
  }
}
