/**
 * Attendance draft records and the checks session.ts makes on them: storage shape and size,
 * validity of a stored record, expiry, and the purpose-limited receipt of
 * attendance-draft-access-revocation.ts.
 */
module AttendanceDrafts {
  import opened Foundations
  import opened ReceiptFence

  datatype Draft = Draft(
    clientSubmissionId: Field,
    academicYearId: Field,
    academicYearLabel: Field,
    classId: Field,
    classLabel: Field,
    sectionId: Field,
    sectionLabel: Field,
    attendanceDate: Field,
    exceptions: Roster,
    remarks: Roster,
    savedAt: Field,
    serverSessionId: Field,
    serverSubmittedAt: Field,
    lastSyncStatus: Field,
    rejectionReason: Field,
    authorizationVersion: Field,
    expectedRosterVersion: Field)

  /** What the browser supplies: reading a date field, and the encoded size of a record in bytes. */
  datatype Browser = Browser(timeOf: Field -> Option<int>, encodedSize: Draft -> nat)

  const DRAFT_TTL_MS := 48 * 60 * 60 * 1000
  const MAX_RECORDS := 20
  const MAX_BYTES := 64 * 1024

  function ReceiptOf(d: Draft): Receipt {
    Receipt(d.clientSubmissionId, d.exceptions, d.lastSyncStatus, d.remarks)
  }

  function OptionalReceipt(d: Option<Draft>): Option<Receipt> {
    if d.Some? then Some(ReceiptOf(d.value)) else None
  }

  predicate IsProtected(d: Draft) { Protected(Some(ReceiptOf(d))) }

  predicate IsTerminal(d: Draft) { Terminal(Some(ReceiptOf(d))) }

  predicate IsPurposeLimited(d: Draft) { PurposeLimited(ReceiptOf(d)) }

  predicate NonBlank(f: Field) { f.Text? && !Blank(f.text) }

  predicate Truthy(f: Field) { (f.Text? && f.text != "") || (f.Other? && f.truthy) }

  predicate Expired(b: Browser, now: int, d: Draft) {
    var savedAt := b.timeOf(d.savedAt);
    savedAt.None? || now - savedAt.value > DRAFT_TTL_MS
  }

  /** The check made on every record read back from storage. */
  predicate Invalid(key: string, d: Draft) {
    || Blank(key)
    || !NonBlank(d.academicYearId)
    || !NonBlank(d.classId)
    || !NonBlank(d.attendanceDate)
    || !NonBlank(d.savedAt)
    || !d.exceptions.Entries?
    || !d.remarks.Entries?
  }

  predicate IsRosterVersion(s: string) {
    |s| == 64 && forall i :: 0 <= i < |s| ==> 'a' <= s[i] <= 'f' || '0' <= s[i] <= '9'
  }

  /** The check made on every record before it is persisted. */
  predicate StorableShape(b: Browser, d: Draft) {
    && NonBlank(d.clientSubmissionId)
    && NonBlank(d.academicYearId)
    && NonBlank(d.classId)
    && NonBlank(d.attendanceDate)
    && NonBlank(d.savedAt)
    && d.exceptions.Entries?
    && d.remarks.Entries?
    && (d.authorizationVersion == Missing || NonBlank(d.authorizationVersion))
    && (d.expectedRosterVersion == Missing
        || (d.expectedRosterVersion.Text? && IsRosterVersion(d.expectedRosterVersion.text)))
    && (d.rejectionReason in {Missing, Null} || (d.rejectionReason.Text? && |d.rejectionReason.text| <= 128))
    && b.encodedSize(d) <= MAX_BYTES
  }

  predicate WithinStoragePolicy(b: Browser, now: int, d: Draft) {
    StorableShape(b, d) && !Expired(b, now, d)
  }

  // ---- Access revocation ----

  datatype RevocationStatus = AuthorizationDenied | AccessRevalidationRequired

  function RevocationText(status: RevocationStatus): string {
    match status
    case AuthorizationDenied => "AUTHORIZATION_DENIED"
    case AccessRevalidationRequired => "ACCESS_REVALIDATION_REQUIRED"
  }

  /** Keeps the receipt identity and scope of a draft; roster data, labels and server metadata go. */
  function PurposeLimitedReceipt(d: Draft, status: string): Draft {
    Draft(
      clientSubmissionId := d.clientSubmissionId,
      academicYearId := d.academicYearId, academicYearLabel := Missing,
      classId := d.classId, classLabel := Missing,
      sectionId := d.sectionId, sectionLabel := Missing,
      attendanceDate := d.attendanceDate,
      exceptions := Entries(map[]), remarks := Entries(map[]),
      savedAt := d.savedAt,
      serverSessionId := Null, serverSubmittedAt := Null,
      lastSyncStatus := Text(status), rejectionReason := Missing,
      authorizationVersion := if Truthy(d.authorizationVersion) then d.authorizationVersion else Missing,
      expectedRosterVersion := Missing)
  }

  function RevocationReceipt(live: Option<Draft>, fallback: Draft, status: RevocationStatus): Draft {
    PurposeLimitedReceipt(if live.Some? then live.value else fallback, RevocationText(status))
  }

  /** Every revocation receipt is terminal, free of roster data, and keeps the submission id it was made from. */
  lemma RevocationReceiptIsTerminal(live: Option<Draft>, fallback: Draft, status: RevocationStatus)
    ensures var r := RevocationReceipt(live, fallback, status);
      && IsTerminal(r) && IsProtected(r) && IsPurposeLimited(r)
      && StatusOf(ReceiptOf(r)) == RevocationText(status)
      && StatusOf(ReceiptOf(r)) !in AUTHORITATIVE_STATUSES
      && IdOf(ReceiptOf(r)) == IdOf(ReceiptOf(if live.Some? then live.value else fallback))
  {
    hide NormalizeStatus, NormalizeId;
    RevocationTextIsNormal(status);
    TerminalIsProtected(RevocationText(status));
  }

  /** Two drafts of one submission and scope, whatever else they hold. */
  predicate SameScope(d: Draft, e: Draft) {
    && d.clientSubmissionId == e.clientSubmissionId && d.academicYearId == e.academicYearId && d.classId == e.classId
    && d.sectionId == e.sectionId && d.attendanceDate == e.attendanceDate && d.savedAt == e.savedAt
    && d.authorizationVersion == e.authorizationVersion
  }

  /**
   * What a revocation receipt reveals: drafts of the same submission and scope have the same receipt, however
   * their roster, labels and server data differ; it keeps the scope, so drafts of different scopes never have
   * the same one; and revoking a receipt again only changes its status.
   */
  lemma ReceiptRevealsScopeOnly(d: Draft, e: Draft, status: RevocationStatus, other: RevocationStatus)
    ensures var text := RevocationText(status);
      && (SameScope(d, e) ==> PurposeLimitedReceipt(d, text) == PurposeLimitedReceipt(e, text))
      && (PurposeLimitedReceipt(d, text) == PurposeLimitedReceipt(e, text) ==>
            SameScope(d.(authorizationVersion := Missing), e.(authorizationVersion := Missing)))
      && RevocationReceipt(Some(PurposeLimitedReceipt(d, text)), e, other) == RevocationReceipt(Some(d), e, other)
      && RevocationReceipt(None, d, status) == RevocationReceipt(Some(d), e, status)
  {
    hide RevocationText;
  }

  lemma RevocationTextIsNormal(status: RevocationStatus)
    ensures NormalizeStatus(Text(RevocationText(status))) == RevocationText(status)
    ensures RevocationText(status) in TERMINAL_STATUSES && RevocationText(status) !in AUTHORITATIVE_STATUSES
  {
    hide NormalizeStatus, RevocationText;
    RevocationTextIsCapital(status);
    NormalForm(RevocationText(status));
    RevocationTextIsTerminal(status);
  }

  lemma RevocationTextIsCapital(status: RevocationStatus)
    ensures var text := RevocationText(status);
      forall i :: 0 <= i < |text| ==> 'A' <= text[i] <= 'Z' || text[i] == '_'
  {
  }

  lemma RevocationTextIsTerminal(status: RevocationStatus)
    ensures RevocationText(status) in TERMINAL_STATUSES && RevocationText(status) !in AUTHORITATIVE_STATUSES
  {
    assert |"AUTHORIZATION_DENIED"| == 20 && |"ACCESS_REVALIDATION_REQUIRED"| == 28;
    assert |"ACCEPTED"| == 8 && |"SYNCED"| == 6 && |"CONFLICTED"| == 10;
  }

  /** A record that may be persisted under a non-blank key is valid when read back. */
  lemma StorableIsValid(b: Browser, key: string, d: Draft)
    requires StorableShape(b, d)
    ensures Invalid(key, d) <==> Blank(key)
  {
  }
}
