# Verified model of the translator backend's core logic

A Dafny model of the parts of the backend whose correctness is not visible from reading one
function: exact invoice amounts, backup and restore, the prospect cycle and its history, refresh
tokens and password resets, the paged audit log, the Clockify import, "contains" searches, and
the layout of invoice PDFs. `dafny verify dfyconfig.toml` checks everything.

| file | what it models |
|---|---|
| `Numerals.dfy`, `Rounding.dfy` | decimal digits of a BigInt; integer division rounding half away from zero |
| `AmountText.dfy`, `LineAmounts.dfy` | reading and printing amounts in 1/10000; invoice lines and billable hours |
| `LikePattern.dfy` | escaping of search text against the matching rules of LIKE |
| `AuditPages.dfy` | the audit log, its purge, one page, and the walk over all pages |
| `ClockifyImport.dfy`, `InterleavedImport.dfy` | collecting pages of time entries and importing them without duplicates; imports that overlap |
| `ProspectDue.dfy`, `ClientHistory.dfy`, `ClientRuns.dfy`, `InterleavedJob.dfy` | due dates and the status cycle; edits and the daily job; runs of them; the job with other requests between its steps |
| `RefreshTokens.dfy`, `InterleavedRefresh.dfy`, `PasswordReset.dfy` | token rotation and reset tokens over serial runs; refreshes of one token that overlap |
| `BackupSchema.dfy`, `BackupRows.dfy`, `BackupImport.dfy` | models, foreign keys and their order; row conversion; the import into a database that enforces its foreign keys |
| `BackupNames.dfy`, `BackupFiles.dfy` | backup file names and their order; rotation over runs of exports |
| `InvoicePdf.dfy` | heights, page breaks and page counts of the invoice PDF |

Modelling choices:

- A JavaScript number is its `String(value)` text (Number::toString, section 6.1.6.1.20 of
  ECMA-262). BigInt division truncates toward zero and is written out that way.
- Services that change tables step by step are classes. Each method equals a function of the
  state before it, and the properties over whole runs are proved about those functions.
- What a caller cannot know in advance (the order in which a directory or a query lists things,
  the clock, randomness, other requests running in between) is a parameter.
- Requests of a run follow one another, except in the three files named `Interleaved...`: there
  other requests run between the database steps of the daily job, of refreshes of one token, and
  of imports.

Where the code does not do what one would expect of it, the model follows the code and the exact
condition is proved:

- Sending the same client edit twice is harmless unless it repeats the stored status together
  with a newer contact date (`ClientRuns.ResendIsHarmlessUnless`,
  `ClientRuns.ResendExample`).
- The daily job promotes clients without looking at their status again, so an edit in between
  can break a client's history (`InterleavedJob.JobBreaksHistoryExactlyWhen`,
  `InterleavedJob.RaceExample`).
- Refreshes of one token that all look before the first deletion are all accepted, and one session
  becomes several without an alarm (`InterleavedRefresh.OverlapOutcome`,
  `InterleavedRefresh.TwoRefreshes`, `InterleavedRefresh.DoubleRefreshExample`).
- Overlapping imports can store one Clockify entry twice
  (`InterleavedImport.TwoRowsExactlyWhen`, `InterleavedImport.TwoRowsExample`).
- `findAll` throws for a negative limit, and for limit 0 as soon as a row is selected
  (`AuditPages.FindAllThrows`, `AuditPages.FindAllThrowsExample`).
- A backup written after the clock was set back can be deleted at once
  (`BackupFiles.NewBackupSurvives`, `BackupFiles.SetBackClockExample`).
- The page break before the invoice total never happens (`InvoicePdf.TotalAndLabelFit`), and notes
  at the foot of a full page are dropped rather than moved to a new page
  (`InvoicePdf.NotesDrawnInFull`, `InvoicePdf.NotesLostExample`).

## Model

| member | source | states |
|---|---|---|
| Rounding.DivRoundExactly | src/invoices/line-amounts.ts:9-16 | for d > 0 the result is the integer nearest to n/d with ties away from zero, and only that integer is |
| Rounding.NearestIsUnique | src/invoices/line-amounts.ts:9-16 | two integers nearest to n/d under the tie rule are equal |
| Rounding.DivRoundOdd | src/invoices/line-amounts.ts:10-16 | rounding -n gives minus the rounding of n |
| Rounding.DivRoundMonotone | src/invoices/line-amounts.ts:10-16 | a larger numerator never rounds lower |
| Rounding.DivRoundScale | src/invoices/line-amounts.ts:28-29 | scaling numerator and denominator alike does not change the rounding |
| AmountText.UnitsOfPlain | src/invoices/line-amounts.ts:25-30 | every plain decimal, of any length and sign, parses to the nearest 1/10000 of its exact value |
| AmountText.UnitsIgnoresTrailingZeros | src/invoices/line-amounts.ts:26-29 | trailing fraction zeros change nothing |
| AmountText.UnitsOfExponent | src/invoices/line-amounts.ts:21-24 | an exponent text below 1e-6 gives 0, which is its exact rounding; one of 1e21 or more is refused |
| AmountText.NonNumbersRefused | src/invoices/line-amounts.ts:27 | NaN and the infinities are refused |
| AmountText.UnitsOfText | src/invoices/line-amounts.ts:19-39 | reading back the text printed for u gives u, for every integer u |
| AmountText.TextInjective | src/invoices/line-amounts.ts:33-39 | different amounts print differently |
| AmountText.TextIsCanonical | src/invoices/line-amounts.ts:33-39 | a printed amount has no leading or trailing zero, no bare point, no minus zero, at most 4 decimals |
| AmountText.TextOfUnits | src/invoices/line-amounts.ts:19-39 | every canonical text is exactly what the amount it reads as prints |
| AmountText.CanonicalTextIsPrinted | src/invoices/line-amounts.ts:19-39 | an amount has one canonical text, the one it prints as |
| LineAmounts.LineShowsItsProduct | src/invoices/line-amounts.ts:42-50 | a line fails only if an input does; it shows its inputs rounded and the nearest product of what it shows, all three as canonical texts, which fixes them |
| LineAmounts.StoredLineIsFixed | src/invoices/line-amounts.ts:42-50 | recomputing a line from its stored quantity and price gives the same three texts |
| LineAmounts.CreditMirrorsCharge | src/invoices/line-amounts.ts:48 | negating quantity or price negates the total |
| LineAmounts.TotalMonotone | src/invoices/line-amounts.ts:48 | for a price of at least 0 the total grows with the quantity |
| LineAmounts.HoursAreNearest | src/invoices/line-amounts.ts:53-55 | hours are the canonical text of the nearest 1/10000 hour, and fail only if the seconds do |
| LineAmounts.StoredHoursFitNumber | src/invoices/line-amounts.ts:52-55 | the hours of every duration a 32-bit column holds print with at most 10 digits, so their `Number` is exact |
| LineAmounts.BillingError | src/invoices/line-amounts.ts:42-55 | a total billed through rounded hours is within abs(price)/20000 + 1/2 units of seconds * price / 3600 |
| LineAmounts.SummedHoursError | src/invoices/line-amounts.ts:53-55 | the summed hours of n durations are within n/2 units of the hours of their exact sum |
| LikePattern.ContainsPatternMatchesLiterally | src/prisma8/like.ts:1-4 | the pattern for a text is well formed and matches exactly the strings that contain the text literally, whatever it contains |
| AuditPages.AuditLog.Record | src/audit/audit.service.ts:23-37 | for an existing user appends one row under the next id; otherwise the insert fails, stores nothing and uses up that id; the call never fails |
| AuditPages.AuditLog.PurgeOld | src/common/cleanup/cleanup.service.ts:28-35 | keeps exactly the rows not older than the cutoff, in order, and the next id |
| AuditPages.FindAllThrows | src/audit/audit.service.ts:44-61 | a page fails exactly for a negative limit, or for limit 0 with a row selected; the query itself is refused exactly below -1 |
| AuditPages.FindAllThrowsExample | src/audit/audit.service.ts:44-61 | a log of one row on which limit 0 and limit -1 both fail |
| AuditPages.ListingIsExact | src/audit/audit.service.ts:45-53 | the query lists exactly the selected rows, newest first |
| AuditPages.ListedExactly | src/audit/audit.service.ts:45-53 | a row is listed exactly if it is of the user asked for, if any, and its id is below the cursor, if any |
| AuditPages.WalkIsListing | src/audit/audit.service.ts:39-61 | following nextCursor while rows are appended returns the whole listing as of the first page, each row once |
| AuditPages.WalkBesidePurge | src/audit/audit.service.ts:39-61 | with the purge running as well, the walk is strictly newest first, invents no row, and misses none that outlives it |
| ClockifyImport.GetEntries | src/clockify/clockify.service.ts:163-193 | returns the server's whole list in order, with floor(length / 50) + 1 requests |
| ClockifyImport.CompletedIsExact | src/clockify/clockify.service.ts:317-326 | the entries handed on are exactly those that have ended |
| ClockifyImport.CompletedAppends | src/clockify/clockify.service.ts:317-326 | filtering and mapping keep the order |
| ClockifyImport.TimeEntries.ImportEntries | src/time-entries/time-entries.service.ts:147-184 | the table, both counters and the exception of the loop |
| ClockifyImport.TimeEntries.ImportFromClockify | src/clockify/clockify.service.ts:302-327 | collecting, filtering and importing in one call |
| ClockifyImport.ImportAppends | src/time-entries/time-entries.service.ts:157-184 | importing A then B is importing A followed by B |
| ClockifyImport.ImportOutcome | src/time-entries/time-entries.service.ts:157-184 | it throws exactly for a new entry with an invalid date; else it adds the first entry of each new id that lasts half a second or more, in order, and imported + skipped is the length |
| ClockifyImport.DurationTold | src/time-entries/time-entries.service.ts:165-173 | the rounded duration is positive exactly for valid dates at least 500 ms apart, and missing exactly for an invalid date |
| ClockifyImport.RowCopiesEntry | src/time-entries/time-entries.service.ts:165-181 | the row of an entry has its id, dates, description and billable flag, and the nearest whole number of seconds |
| ClockifyImport.NewRowsAreSound | src/time-entries/time-entries.service.ts:165-181 | each new row copies an importable entry and lasts a positive, correctly rounded number of seconds |
| ClockifyImport.SecondRunImportsNothing | src/time-entries/time-entries.service.ts:160-173 | a second run of the same list skips every entry |
| ClockifyImport.ImportKeepsOneRowPerId | src/time-entries/time-entries.service.ts:159-182 | at most one row per user and Clockify id, even after a run that throws; stored rows stay |
| InterleavedImport.AloneIsImportAll | src/time-entries/time-entries.service.ts:157-184 | the steps of an import, with nothing in between, end with the table and counters of the loop |
| InterleavedImport.TotalIsMisses | src/time-entries/time-entries.service.ts:160-181 | the rows of an id, stored or about to be, are those there were and one for each lookup that missed it |
| InterleavedImport.OneRowIsCounted | src/time-entries/time-entries.service.ts:159-182 | one row per user and id means a count of at most one for every user and id |
| InterleavedImport.TwoRowsExactlyWhen | src/time-entries/time-entries.service.ts:160-181 | after any interleaving of any number of imports an id has two rows if and only if at some moment two of them were between finding it missing and creating its row |
| InterleavedImport.TwoRowsExample | src/time-entries/time-entries.service.ts:160-181 | a concrete overlap that stores one entry twice |
| ProspectDue.NeverDueNeverStepped | src/clients/prospect-due.util.ts:5-28 | the statuses that are never due are those a contact does not move |
| ProspectDue.DueAgainAfterContact | src/clients/prospect-due.util.ts:8-58 | a prospect is due again exactly 2 weeks after a contact, or 26 if the contact moved it to RECONTACT_LATER, and always before its first one |
| ProspectDue.NewestIsLatest | src/clients/prospect-due.util.ts:30-37 | the result is the later of the dates that are set, if any |
| ClientHistory.ClientsService.UpdateClient | src/clients/clients.service.ts:53-92 | the stored client, the entries logged and the errors of an edit |
| ClientHistory.ClientsService.PromoteStaleFollowUps | src/clients/prospect-cron.service.ts:18-49 | the daily job: the found clients moved, one entry each |
| ClientRuns.StatusAfterEdit | src/clients/clients.service.ts:53-151 | the whole client after an edit: a picked status wins, else a newer contact moves one step along the cycle, else the status stays; name and both dates are kept, cleared or set as the edit says; the owner and all other clients stay |
| ClientRuns.EditFailsExactly | src/clients/clients.service.ts:58-60 | an edit is refused exactly for a client that is not there or not the user's, and for a null name or status; then nothing changes |
| ClientRuns.EditLogsItsChanges | src/clients/clients.service.ts:62-85 | an edit logs exactly the change of status and the change of contact date it makes, in this order |
| ClientRuns.DeleteUndoesCreate | src/clients/clients.service.ts:44-113 | deleting a new client leaves only its id used up, and only its owner can |
| ClientRuns.StaleIsNewestBeforeCutoff | src/clients/repositories/prisma8-client.repository.ts:358-376 | the SQL conditions, nulls included, select the follow-ups whose newest date is before the cutoff |
| ClientRuns.StaleWasDue | src/clients/prospect-cron.service.ts:20-22 | a client the job moves was due for a week; one found within a week of its cutoff is not due again for 150 days |
| ClientRuns.JobMovesExactlyTheStale | src/clients/prospect-cron.service.ts:20-39 | the job moves the stale clients and no other, and leaves none stale |
| ClientRuns.ContactsStepTheCycle | src/clients/clients.service.ts:140-151 | n contacts with ever newer dates move a prospect n steps along its cycle, and TALKING and CLIENT nowhere |
| ClientRuns.EntryStatusNotReentered | src/clients/prospect-due.util.ts:21-28 | after the first contact the entry statuses never come back; the cycle has length four |
| ClientRuns.ResendIsHarmlessUnless | src/clients/clients.service.ts:140-151 | an edit sent twice equals the edit sent once, except exactly when it repeats the stored status with a newer contact of a prospect; then the second send reverts the step |
| ClientRuns.ResendExample | src/clients/clients.service.ts:140-151 | a concrete edit that is not harmless to send twice |
| ClientRuns.ApplyKeepsValid | src/clients/clients.service.ts:58-85 | ids are not reused, and every entry belongs to an existing client and is signed by its owner |
| ClientRuns.HistoryExplainsRun | src/clients/clients.service.ts:58-85 | over any run of edits, creations, deletions and daily jobs the new entries of a client chain without gaps or self-loops from its old status and contact date to the stored ones |
| InterleavedJob.JobBreaksHistoryExactlyWhen | src/clients/prospect-cron.service.ts:20-39 | with requests between the job's steps, a found client's history explains its status if and only if it was still a FOLLOW_UP_2 when promoted and did not change before the log; with the log failing, if and only if it was already RECONTACT_LATER |
| InterleavedJob.JobKeepsDatesExplained | src/clients/prospect-cron.service.ts:20-39 | whatever runs between the job's steps, a found client's new entries lead from its old contact date to the stored one |
| InterleavedJob.OthersStayExplained | src/clients/prospect-cron.service.ts:20-39 | and the history of a client the job did not find explains both its status and its contact date |
| InterleavedJob.RaceExample | src/clients/repositories/prisma8-client.repository.ts:378-382 | a concrete interleaving after which the two entries of a client do not chain |
| InterleavedRefresh.AloneIsRotate | src/auth/auth.service.ts:81-122 | the four steps of a refresh, with nothing in between, are the whole refresh |
| InterleavedRefresh.OverlapOutcome | src/auth/auth.service.ts:96-121 | of any number of overlapping refreshes of one live token, exactly those are accepted that look before the first deletion; each other one raises an alarm; an accepted one leaves a live session exactly when no revocation follows it; with none late, n refreshes leave n sessions in the place of one |
| InterleavedRefresh.TwoRefreshes | src/auth/auth.service.ts:96-121 | two refreshes of one token are both accepted if and only if each finds the record before the other deletes it; else exactly one is, and one alarm is raised |
| InterleavedRefresh.DoubleRefreshExample | src/auth/auth.service.ts:96-121 | a concrete overlap that makes two sessions of one |
| RefreshTokens.AuthService.IssueTokensFor | src/auth/auth.service.ts:403-445 | signs a fresh token and stores its record |
| RefreshTokens.AuthService.Login | src/auth/auth.service.ts:72-79 | issues tokens unless a second factor is on |
| RefreshTokens.AuthService.RefreshSession | src/auth/auth.service.ts:81-122 | the new state and the answer for every cookie |
| RefreshTokens.AuthService.LogoutUser | src/auth/auth.service.ts:124-130 | deletes the user's records only |
| RefreshTokens.AuthService.DeleteUser | src/auth/auth.service.ts:349-355 | deletes the user's records and the user |
| RefreshTokens.SessionsOpenExactly | src/auth/auth.service.ts:72-79 | a session is opened by a password only with the second factor off, by a second factor only if the code matches, and by OAuth; by no other request but a refresh |
| RefreshTokens.SecondFactorAskedExactly | src/auth/auth.service.ts:72-79 | a second factor is asked for exactly when a known user who has it on signs in; a sign-in that opens no session changes nothing |
| RefreshTokens.AccountsAfter | src/auth/auth.service.ts:61-79 | which accounts there are after a request, and which have the second factor on |
| RefreshTokens.RefreshSucceedsExactly | src/auth/auth.service.ts:81-122 | a refresh succeeds exactly for a live token within both its lifetimes |
| RefreshTokens.RefreshRotates | src/auth/auth.service.ts:116-121 | success swaps the user's token for a fresh one, keeps the number of live records, and touches nobody else |
| RefreshTokens.RefreshFails | src/auth/auth.service.ts:85-117 | failure changes nothing, except that replaying a spent unexpired token revokes every session of that user, and of no other, and stores one alarm if the user still exists |
| RefreshTokens.AcceptedAtMostOnce | src/auth/auth.service.ts:96-121 | over any run each token is accepted at most once; shown again before expiry it leaves its user without a session and all others untouched |
| RefreshTokens.SessionSurvives | src/auth/auth.service.ts:81-130 | a session outlives a run, its record unchanged, exactly when no request of the run ends it |
| RefreshTokens.IssuedTokenWorksUntil | src/auth/auth.service.ts:403-433 | an issued token works after a run exactly when nothing ended it and neither lifetime is over |
| RefreshTokens.SessionsConserved | src/auth/auth.service.ts:72-130 | a user never has more live records than were opened, and exactly those if none was revoked |
| PasswordReset.PasswordResets.Request | src/auth/auth.service.ts:315-324 | replaces the user's reset tokens by one new token |
| PasswordReset.PasswordResets.Reset | src/auth/auth.service.ts:357-369 | the new state and the answer for every token and password |
| PasswordReset.RunKeepsValid | src/auth/auth.service.ts:318-321 | over any run each user has at most one live reset token |
| PasswordReset.RequestedTokenWorks | src/auth/auth.service.ts:315-324 | a requested token works for an hour, for that user, and voids the older ones |
| PasswordReset.ResetSucceedsExactly | src/auth/auth.service.ts:357-369 | after a run a token works exactly when no event of it is one that ends the token, as told by the event and the start state alone, the token has not expired and the password is long enough |
| PasswordReset.TokenSurvives | src/auth/auth.service.ts:315-369 | a token is live after a run exactly when no event of the run ends it, and then its record is unchanged |
| PasswordReset.ResetUsedOnce | src/auth/auth.service.ts:365-368 | a reset sets one user's password, and its token never works again |
| PasswordReset.ResetFailsExactly | src/auth/auth.service.ts:357-364 | which resets are refused, with which error, and that they change nothing |
| PasswordReset.MailedExactly | src/auth/auth.service.ts:315-324 | a token is mailed exactly for a known address; otherwise nothing changes |
| PasswordReset.PurgeInvisible | src/common/cleanup/cleanup.service.ts:12-19 | after any later events, a reset gets the same answer and leaves the same passwords as if the nightly purge had not run |
| BackupSchema.ForeignKeys | migrations/app/20261008T0634_baseline/migration.ts:958-1540 | every foreign key points to the id of a model earlier in the order |
| BackupSchema.OrderIsTopological | src/scripts/db-sync.util.ts:1-37 | MODEL_ORDER lists every model once, after all models it refers to |
| BackupSchema.JoinTables | src/scripts/db-sync.util.ts:48-64 | models without an id are ordered by their two cascading references |
| BackupRows.RowToBackup | src/scripts/db-backup.prisma8.ts:28-44 | the converted row holds exactly the converted cells under their column names |
| BackupRows.ExportedRow | src/scripts/db-backup.prisma8.ts:28-44 | the exported row has exactly the column names of its fields, timestamps in ISO form with three decimals, and numerals without trailing fraction zeros |
| BackupRows.CanonicalDecimalKeepsValue | src/scripts/db-backup.prisma8.ts:21-26 | canonical text keeps the exact value and is a fixed point |
| BackupRows.AmountSurvivesExport | src/scripts/db-backup.prisma8.ts:21-26 | the stored text of an invoice amount becomes exactly the text it was computed as |
| BackupRows.TimestampToIso | src/scripts/db-backup.prisma8.ts:36-37 | a stored timestamp of the years 1 to 9999 becomes ISO text with all three decimals |
| BackupRows.RowRoundTrip | src/scripts/db-backup.prisma8.ts:28-60 | a row exported, imported and stored is the row it was |
| BackupRows.DroppedColumns | src/scripts/db-backup.prisma8.ts:53-59 | columns the schema no longer has are dropped and change nothing else |
| BackupImport.WipeStep | src/scripts/db-backup.prisma8.ts:103-105 | each deletion empties its table and triggers no cascade and no set-null |
| BackupImport.WipedConsistent | src/scripts/db-backup.prisma8.ts:103-105 | no reference dangles after any deletion step |
| BackupImport.ImportedIsConsistent | src/scripts/db-backup.prisma8.ts:106-113 | no reference dangles after any insertion step, nor at the end |
| BackupImport.Database.ImportBackup8 | src/scripts/db-backup.prisma8.ts:96-115 | succeeds exactly when each table of the backup obeys its rules and refers to rows of the backup; then the database is the backup, else it is unchanged |
| BackupImport.RestoredExport | src/scripts/db-backup.prisma8.ts:75-115 | the database an export describes is the exported one |
| BackupImport.RestoredOlderExport | src/scripts/db-backup.prisma8.ts:53-115 | an export that lacks any tables and has columns dropped since restores all other tables as they were |
| BackupImport.RestoredWithoutTables | src/scripts/db-backup.prisma8.ts:106-113 | an export without some tables restores the others as they were and leaves those empty |
| BackupImport.WithoutTablesImportableExactly | src/scripts/db-backup.prisma8.ts:96-115 | such a backup is accepted exactly when no row of its tables refers to a table it lacks |
| BackupImport.ExportIsImportable | src/scripts/db-backup.prisma8.ts:75-115 | an export of a consistent database can always be imported, and exporting the restored tables gives the same rows |
| BackupImport.ListingIsUnique | src/scripts/db-sync.util.ts:48-64 | a table has only one listing in the order of its primary key, however its rows are stored |
| BackupImport.NextExportIsTheSame | src/scripts/db-backup.prisma8.ts:75-93 | whatever order the restored tables keep their rows in, the next export holds the same rows in the same order |
| BackupNames.NamesSortByDate | src/scripts/db-backup.core.ts:21-23 | name order is date order |
| BackupNames.BackupsRecognised | src/scripts/db-backup.core.ts:14 | the pattern accepts every backup name and no PostgreSQL dump name |
| BackupNames.IsBackupExactly | src/scripts/db-backup.core.ts:14 | the pattern accepts exactly the prefix, any text without line terminators, and the suffix |
| BackupNames.BackupNameSpelt | src/scripts/db-backup.core.ts:21-23 | the name is db-backup-YYYY-MM-DDThh-mm-ss-mmmZ.json, every field zero-padded |
| BackupNames.LessIsCodeUnitOrder | src/scripts/db-backup.core.ts:30 | names are ordered as their UTF-16 code units are, whatever characters they hold |
| BackupFiles.SelectsAllButNewest | src/scripts/db-backup.core.ts:25-33 | exactly the backups that are not among the newest are selected, in whatever order the names come |
| BackupFiles.LatestIsNewest | src/scripts/db-backup.core.ts:35-48 | the latest backup is newer than every other, and missing only when there is none |
| BackupFiles.DumpDir.WriteAndRotate | src/scripts/db-backup.core.ts:73-79 | after an export the directory holds the newest five backups, the new one counted, and every other file |
| BackupFiles.RotationsCompose | src/scripts/db-backup.core.ts:76-79 | rotating after every export keeps what one rotation at the end would keep |
| BackupFiles.DirectoryAfterExports | src/scripts/db-backup.core.ts:73-79 | after any number of exports at any dates: the newest five of all backups there ever were |
| BackupFiles.KeptCount | src/scripts/db-backup.core.ts:76-79 | rotation leaves min(count, 5) backups |
| BackupFiles.NewBackupSurvives | src/scripts/db-backup.core.ts:73-79 | the backup just written stays exactly when fewer than five have later names |
| BackupFiles.LatestIsJustWritten | src/scripts/db-backup.core.ts:43-48 | the latest backup is the one just written exactly when no other has a later name |
| BackupFiles.ForwardClock | src/scripts/db-backup.core.ts:73 | with a clock that moves forward no backup there has a later name than the one just written |
| BackupFiles.ForwardRun | src/scripts/db-backup.core.ts:43-79 | with a clock that moves forward, any number of exports leave min(count, 5) backups, the latest being the last one written |
| BackupFiles.SetBackClockExample | src/scripts/db-backup.core.ts:73-79 | a concrete directory in which the backup just written is deleted at once |
| BackupFiles.OtherFilesStay | src/scripts/pg-dump.core.ts:1-4 | no file that is not a JSON backup is ever deleted |
| InvoicePdf.DrawHeader | src/invoices/invoices.service.ts:180-319 | the height of the first line for every header |
| InvoicePdf.DrawItems | src/invoices/invoices.service.ts:321-356 | the place of every line and column header, and the number of pages |
| InvoicePdf.DrawNotes | src/invoices/invoices.service.ts:377-394 | which notes are drawn, and where |
| InvoicePdf.Generate | src/invoices/invoices.service.ts:300-394 | the layout of a whole invoice: pages are 1 + ceil(max(0, n - c) / 42) |
| InvoicePdf.FirstLineRange | src/invoices/invoices.service.ts:180-319 | whatever the header, the first line is at one of six heights |
| InvoicePdf.FirstLineExactly | src/invoices/invoices.service.ts:180-319 | which of the six heights, told by the number of dates and of client details shown |
| InvoicePdf.PartsCounted | src/invoices/invoices.service.ts:180-319 | the client details shown are the filled ones, of the address its first three lines at most |
| InvoicePdf.LinesFollow | src/invoices/invoices.service.ts:322-375 | each line is 16 below the one before, or at 766 on the next page when that is below 100; the total is 46 below the last line |
| InvoicePdf.HeadersOnEveryPage | src/invoices/invoices.service.ts:322-340 | every page has one row of column headers, 16 above its first line |
| InvoicePdf.LinesStayOnThePage | src/invoices/invoices.service.ts:322-356 | lines are drawn in order between 100 and 766, at least 16 points apart |
| InvoicePdf.EveryPageUsed | src/invoices/invoices.service.ts:322-356 | no page is added without a line on it |
| InvoicePdf.TotalAndLabelFit | src/invoices/invoices.service.ts:358-379 | the page break before the total is never taken; the total is at 56 or more and a notes label above the page number |
| InvoicePdf.NotesDrawnInFull | src/invoices/invoices.service.ts:377-394 | the notes are drawn in full exactly when the last of them is above 50, always when the total is at 151 or more; they are 14 apart, the first 14 below the label, and stop only where the next would be at 50 or below |
| InvoicePdf.FirstFilled | src/invoices/invoices.service.ts:382-394 | the notes drawn are counted among the lines that are not blank of the first five |
| InvoicePdf.NotesLostExample | src/invoices/invoices.service.ts:377-394 | a concrete invoice whose five notes are all dropped |

## Left out

- PostgreSQL, Prisma, Redis, HTTP calls, OAuth redirects and webhooks: tables are maps and sequences with their usual meaning.
- Signing, hashing and encryption: a token stands for its signature and hash, a reset password for its hash; random ids never repeat.
- Interleaving within requests other than the daily job, refreshes of one token and imports: every other run is serial.
- InterleavedRefresh.OverlapOutcome: refreshes begun after a lifetime of the token has ended, and logouts or deletion of the same user between the steps.
- InterleavedImport.TwoRowsExactlyWhen: imported rows deleted or edited while imports run.
- Ids that become visible out of order (a later id committed before an earlier one) during a walk over the audit log.
- LineAmounts.BillingError: hours stay the text they are printed as; the conversion to a Number and back, which carries up to 15 digits exactly, is not modelled (StoredHoursFitNumber shows that stored durations need at most 10).
- LineAmounts.SummedHoursError: the floating-point rounding of a caller who adds the hours as Numbers is not modelled; the sum is taken of the exact amounts.
- LineAmounts.LineShowsItsProduct: the rounding of a database value by `Number(text)`; a numeric(10, 4) column has at most 10 digits, which `Number` and `String` carry exactly.
- BackupRows.TimestampToIso: timestamps before the year 1 or beyond 9999, which the database prints with an era or a fifth digit and `new Date` does not read back.
- BackupRows.PgNumeric: rounding of decimals with more digits than the column's scale, which no export contains.
- BackupRows.RowFromBackup: defaults the database fills in for columns an older backup lacks, and column names that clash with properties of every JavaScript object.
- JSON encoding of the backup file, reading of the tables by `runExport`, and the sequences reset after an import.
- BackupNames.NamesSortByDate: years beyond 9999, which ISO text writes with a sign and six digits.
- AuditPages.FindAll: the default limit of 50 and the user's email joined to each row.
- LikePattern.Matches: case folding is any per-character function; folding that changes the length of a text is not modelled.
- ClockifyImport.ServerPage: the server pages a fixed list and honours the page size.
- Horizontal positions, fonts, the logo, and the floating-point subtotal of the PDF.
- White space: a note or address line is known only as blank or not.
- Wiring: modules, resolvers, controllers, inputs and entities hold no hard property.
