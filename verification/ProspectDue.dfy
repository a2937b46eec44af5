/** When prospects are due and where a contact moves them (`src/clients/prospect-due.util.ts`). */
module ProspectDue {
  import opened Wrappers

  datatype ClientStatus =
    | TO_CONTACT | CONTACTED | FOLLOW_UP_1 | FOLLOW_UP_2 | RECONTACT_LATER | TALKING | CLIENT | FORMER_CLIENT

  const DAY_MS := 86_400_000

  /** Dates are epoch milliseconds. */
  function NewestContactDate(contactedAt: Option<int>, toRecontactAt: Option<int>): Option<int> {
    if contactedAt.None? || toRecontactAt.None? then
      if contactedAt.Some? then contactedAt else toRecontactAt
    else if contactedAt.value > toRecontactAt.value then contactedAt
    else toRecontactAt
  }

  function NextStatusAfterContact(status: ClientStatus): Option<ClientStatus> {
    match status
    case TO_CONTACT => Some(CONTACTED)
    case FORMER_CLIENT => Some(CONTACTED)
    case CONTACTED => Some(FOLLOW_UP_1)
    case FOLLOW_UP_1 => Some(FOLLOW_UP_2)
    case FOLLOW_UP_2 => Some(RECONTACT_LATER)
    case RECONTACT_LATER => Some(CONTACTED)
    case TALKING => None
    case CLIENT => None
  }

  function ThresholdDays(status: ClientStatus): Option<int> {
    match status
    case CONTACTED => Some(14)
    case FOLLOW_UP_1 => Some(14)
    case FOLLOW_UP_2 => Some(14)
    case RECONTACT_LATER => Some(182)
    case _ => None
  }

  datatype Due = Now | Never | On(date: int)

  function ProspectDueAt(status: ClientStatus, lastContact: Option<int>): Due {
    if status == TO_CONTACT || status == FORMER_CLIENT then Now
    else
      match ThresholdDays(status)
      case None => Never
      case Some(days) => if lastContact.None? then Now else On(lastContact.value + days * DAY_MS)
  }

  predicate IsDue(status: ClientStatus, lastContact: Option<int>, now: int) {
    match ProspectDueAt(status, lastContact)
    case Now => true
    case Never => false
    case On(date) => date <= now
  }

  /** Never due and never moved by a contact are the same statuses. */
  lemma NeverDueNeverStepped(status: ClientStatus, lastContact: Option<int>)
    ensures ProspectDueAt(status, lastContact) == Never <==> NextStatusAfterContact(status).None?
  {
  }

  /**
   A prospect contacted on day `date` is due again exactly two weeks later, or 26 weeks if the
   contact moved it to RECONTACT_LATER; until its first contact it is always due.
   */
  lemma DueAgainAfterContact(status: ClientStatus, date: int, now: int, lastContact: Option<int>)
    requires NextStatusAfterContact(status).Some?
    ensures var next := NextStatusAfterContact(status).value;
      && (IsDue(next, Some(date), now)
          <==> now - date >= (if status == FOLLOW_UP_2 then 26 else 2) * 7 * 86_400_000)
      && IsDue(status, None, now)
      && (status == TO_CONTACT || status == FORMER_CLIENT ==> IsDue(status, lastContact, now))
  {
  }

  /** The later of the dates that are set, if any is. */
  lemma NewestIsLatest(contactedAt: Option<int>, toRecontactAt: Option<int>)
    ensures var newest := NewestContactDate(contactedAt, toRecontactAt);
      && (newest.Some? <==> contactedAt.Some? || toRecontactAt.Some?)
      && (newest.Some? ==> newest == contactedAt || newest == toRecontactAt)
      && (contactedAt.Some? ==> newest.value >= contactedAt.value)
      && (toRecontactAt.Some? ==> newest.value >= toRecontactAt.value)
  {
  }

  // ---- the four-status cycle ----

  /** Place on the cycle CONTACTED, FOLLOW_UP_1, FOLLOW_UP_2, RECONTACT_LATER; entry statuses come before CONTACTED. */
  function Position(status: ClientStatus): int {
    match status
    case CONTACTED => 0
    case FOLLOW_UP_1 => 1
    case FOLLOW_UP_2 => 2
    case _ => 3
  }

  function AtPosition(k: int): ClientStatus
    requires 0 <= k < 4
  {
    if k == 0 then CONTACTED else if k == 1 then FOLLOW_UP_1 else if k == 2 then FOLLOW_UP_2 else RECONTACT_LATER
  }

  /** Where n steps lead: around the cycle for a prospect, nowhere for TALKING and CLIENT. */
  function AfterContacts(status: ClientStatus, n: nat): ClientStatus {
    if n == 0 || NextStatusAfterContact(status).None? then status
    else AtPosition((Position(status) + n) % 4)
  }
}
