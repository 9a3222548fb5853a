/**
 * The receipt status machine of apps/web/lib/attendance-draft-receipt-fence.ts: which writes and
 * deletes of a stored attendance draft are allowed, given the receipt it already carries.
 */
module ReceiptFence {
  import opened Foundations

  /** A field of a record read back from storage, before its type is known. */
  datatype Field = Missing | Null | Text(text: string) | Other(truthy: bool)

  /** The exceptions or remarks of a draft: a keyed object, or anything else. */
  datatype Roster = NotAnObject | Entries(items: map<string, string>)

  /** The part of a draft the status machine looks at. */
  datatype Receipt = Receipt(
    clientSubmissionId: Field,
    exceptions: Roster,
    lastSyncStatus: Field,
    remarks: Roster)

  /** An outcome returned by the server. */
  datatype Outcome = Outcome(clientSubmissionId: Field, syncStatus: Field)

  datatype RejectionReason =
    | DifferentSubmission
    | AuthoritativeOutcomeRequired
    | ProtectedStatusDowngrade
    | TerminalReceiptTombstone

  datatype WriteDecision = Allowed | Refused(reason: RejectionReason)

  const EDITABLE_STATUSES := {"", "DRAFT", "SAVED_LOCAL", "REJECTED"}
  const AUTHORITATIVE_STATUSES := {"ACCEPTED", "SYNCED", "CONFLICTED"}
  const TERMINAL_STATUSES := AUTHORITATIVE_STATUSES + {"AUTHORIZATION_DENIED", "ACCESS_REVALIDATION_REQUIRED"}

  // ---- Text normalisation ----

  predicate IsBlankChar(c: char) {
    c in {' ', '\t', '\n', '\r', '\U{000B}', '\U{000C}', '\U{00A0}', '\U{1680}', '\U{2028}', '\U{2029}',
          '\U{202F}', '\U{205F}', '\U{3000}', '\U{FEFF}'} || '\U{2000}' <= c <= '\U{200A}'
  }

  function TrimStart(s: string): string {
    if s != "" && IsBlankChar(s[0]) then TrimStart(s[1..]) else s
  }

  function TrimEnd(s: string): string {
    if s != "" && IsBlankChar(s[|s| - 1]) then TrimEnd(s[..|s| - 1]) else s
  }

  function Trim(s: string): string {
    TrimEnd(TrimStart(s))
  }

  predicate Blank(s: string) {
    Trim(s) == ""
  }

  /**
   * Upper-casing of one character, exact wherever the result is written in the letters A to Z: besides a
   * to z these are the dotless i, the long and the sharp s, and the ligatures of f and st. Every other
   * character stands for itself; the status sets below contain none.
   */
  function UpperChar(c: char): string {
    if 'a' <= c <= 'z' then [((c as int) - 32) as char]
    else if c == '\U{0131}' then "I"
    else if c == '\U{017F}' then "S"
    else if c == '\U{00DF}' then "SS"
    else if c == '\U{FB00}' then "FF"
    else if c == '\U{FB01}' then "FI"
    else if c == '\U{FB02}' then "FL"
    else if c == '\U{FB03}' then "FFI"
    else if c == '\U{FB04}' then "FFL"
    else if c == '\U{FB05}' || c == '\U{FB06}' then "ST"
    else [c]
  }

  function Upper(s: string): string {
    if s == "" then "" else UpperChar(s[0]) + Upper(s[1..])
  }

  function NormalizeStatus(value: Field): string {
    if value.Text? then Upper(Trim(value.text)) else ""
  }

  function NormalizeId(value: Field): string {
    if value.Text? then Trim(value.text) else ""
  }

  // ---- Predicates over a stored draft ----

  predicate HasRosterData(value: Roster) {
    value.Entries? && |value.items| > 0
  }

  predicate PurposeLimited(draft: Receipt) {
    !HasRosterData(draft.exceptions) && !HasRosterData(draft.remarks)
  }

  function IdOf(draft: Receipt): string { NormalizeId(draft.clientSubmissionId) }

  function StatusOf(draft: Receipt): string { NormalizeStatus(draft.lastSyncStatus) }

  function OptionalStatus(draft: Option<Receipt>): string {
    if draft.Some? then StatusOf(draft.value) else ""
  }

  predicate MatchesOutcome(draft: Receipt, outcome: Option<Outcome>) {
    && IdOf(draft) != ""
    && IdOf(draft) == (if outcome.Some? then NormalizeId(outcome.value.clientSubmissionId) else "")
    && StatusOf(draft) == (if outcome.Some? then NormalizeStatus(outcome.value.syncStatus) else "")
  }

  predicate Protected(draft: Option<Receipt>) {
    OptionalStatus(draft) !in EDITABLE_STATUSES
  }

  predicate Terminal(draft: Option<Receipt>) {
    OptionalStatus(draft) in TERMINAL_STATUSES
  }

  // ---- Decisions ----

  function DecideWrite(existing: Option<Receipt>, incoming: Receipt, outcome: Option<Outcome>): WriteDecision {
    if StatusOf(incoming) in AUTHORITATIVE_STATUSES
       && (!MatchesOutcome(incoming, outcome) || !PurposeLimited(incoming)) then
      Refused(AuthoritativeOutcomeRequired)
    else if !Protected(existing) then
      Allowed
    else if IdOf(existing.value) == "" || IdOf(incoming) == "" || IdOf(existing.value) != IdOf(incoming) then
      Refused(DifferentSubmission)
    else if Terminal(existing) then
      if StatusOf(incoming) == StatusOf(existing.value) && PurposeLimited(incoming) then
        Allowed
      else
        Refused(TerminalReceiptTombstone)
    else if StatusOf(incoming) == "REJECTED" && MatchesOutcome(incoming, outcome) then
      Allowed
    else if !Protected(Some(incoming)) then
      Refused(ProtectedStatusDowngrade)
    else
      Allowed
  }

  predicate DeleteAllowed(existing: Option<Receipt>) {
    !Protected(existing)
  }

  // ---- Facts about the status machine ----

  /** The terminal statuses, the editable ones and the purpose-limiting ones do not overlap. */
  lemma TerminalIsProtected(status: string)
    requires status in TERMINAL_STATUSES
    ensures status !in EDITABLE_STATUSES
  {
    assert "ACCEPTED"[0] != "REJECTED"[0];
  }

  /**
   * What an allowed write may do to a protected record: it keeps the submission id; a terminal
   * record keeps its status and stays free of roster data; any other becomes editable only by an
   * authoritative REJECTED outcome for the same submission.
   */
  lemma AllowedWriteOverProtected(existing: Receipt, incoming: Receipt, outcome: Option<Outcome>)
    requires Protected(Some(existing))
    requires DecideWrite(Some(existing), incoming, outcome) == Allowed
    ensures IdOf(incoming) == IdOf(existing) != ""
    ensures Terminal(Some(existing)) ==> StatusOf(incoming) == StatusOf(existing) && PurposeLimited(incoming)
    ensures Protected(Some(incoming)) || (StatusOf(incoming) == "REJECTED" && MatchesOutcome(incoming, outcome))
  {
    if Terminal(Some(existing)) {
      TerminalIsProtected(StatusOf(existing));
    }
  }

  /** Accepted, synced and conflicted records are only ever written against the outcome they claim. */
  lemma AllowedAuthoritativeWriteIsBacked(existing: Option<Receipt>, incoming: Receipt, outcome: Option<Outcome>)
    requires DecideWrite(existing, incoming, outcome) == Allowed
    requires StatusOf(incoming) in AUTHORITATIVE_STATUSES
    ensures outcome.Some? && IdOf(incoming) == NormalizeId(outcome.value.clientSubmissionId) != ""
    ensures outcome.Some? && StatusOf(incoming) == NormalizeStatus(outcome.value.syncStatus)
  {
  }

  /**
   * Which writes are allowed, status by status: one that claims an accepted, synced or conflicted outcome
   * needs that very outcome, for a submission id, and no roster; over a record that is not editable it must
   * be for the same submission; and then a terminal record is only written again under its own status and
   * without roster, and any other only by a record that is not editable either or by an authoritative
   * rejection.
   */
  lemma WriteIsAllowedExactly(existing: Option<Receipt>, incoming: Receipt, outcome: Option<Outcome>)
    ensures var before, after := OptionalStatus(existing), StatusOf(incoming);
      var given := outcome.Some? && IdOf(incoming) == NormalizeId(outcome.value.clientSubmissionId) != ""
        && after == NormalizeStatus(outcome.value.syncStatus);
      DecideWrite(existing, incoming, outcome) == Allowed <==>
        && (after == "ACCEPTED" || after == "SYNCED" || after == "CONFLICTED" ==> given && PurposeLimited(incoming))
        && (|| before == "" || before == "DRAFT" || before == "SAVED_LOCAL" || before == "REJECTED"
            || (&& IdOf(incoming) == IdOf(existing.value) != ""
                && (if before == "ACCEPTED" || before == "SYNCED" || before == "CONFLICTED"
                       || before == "AUTHORIZATION_DENIED" || before == "ACCESS_REVALIDATION_REQUIRED"
                    then after == before && PurposeLimited(incoming)
                    else (after != "" && after != "DRAFT" && after != "SAVED_LOCAL" && after != "REJECTED")
                         || (after == "REJECTED" && given))))
  {
    hide NormalizeStatus, NormalizeId, PurposeLimited;
  }

  /**
   * A write that went through may be retried: over the record it left it is allowed again, provided that
   * record has a submission id, and no roster if it is terminal.
   */
  lemma RetriedWriteIsAllowed(existing: Option<Receipt>, incoming: Receipt, outcome: Option<Outcome>)
    requires DecideWrite(existing, incoming, outcome) == Allowed
    ensures DecideWrite(Some(incoming), incoming, outcome) == Allowed <==>
      !Protected(Some(incoming)) || (IdOf(incoming) != "" && (Terminal(Some(incoming)) ==> PurposeLimited(incoming)))
  {
    hide NormalizeStatus, NormalizeId, PurposeLimited;
  }

  lemma {:induction false} UpperOfCapitals(s: string)
    requires forall i :: 0 <= i < |s| ==> 'A' <= s[i] <= 'Z' || s[i] == '_'
    ensures Upper(s) == s
  {
    if s != "" { UpperOfCapitals(s[1..]); }
  }

  /** A text of capital letters and underscores is its own normal form. */
  lemma NormalForm(status: string)
    requires forall i :: 0 <= i < |status| ==> 'A' <= status[i] <= 'Z' || status[i] == '_'
    ensures NormalizeStatus(Text(status)) == status
  {
    assert status != "" ==> !IsBlankChar(status[0]) && !IsBlankChar(status[|status| - 1]);
    assert TrimStart(status) == status;
    assert TrimEnd(status) == status;
    UpperOfCapitals(status);
  }

  // ---- However a status is written ----

  function Lowered(s: string): string {
    seq(|s|, i requires 0 <= i < |s| => if 'A' <= s[i] <= 'Z' then ((s[i] as int) + 32) as char else s[i])
  }

  predicate AllBlank(s: string) {
    forall i :: 0 <= i < |s| ==> IsBlankChar(s[i])
  }

  lemma {:induction false} UpperOfLowered(s: string)
    requires forall i :: 0 <= i < |s| ==> 'A' <= s[i] <= 'Z' || s[i] == '_'
    ensures Upper(Lowered(s)) == s
  {
    if s != "" {
      UpperOfLowered(s[1..]);
      assert Lowered(s)[1..] == Lowered(s[1..]);
      assert UpperChar(Lowered(s)[0]) == [s[0]];
    }
  }

  lemma {:induction false} TrimStartDrops(before: string, s: string)
    requires AllBlank(before) && s != "" && !IsBlankChar(s[0])
    ensures TrimStart(before + s) == s
  {
    hide IsBlankChar;
    if before == "" {
      assert before + s == s;
    } else {
      assert (before + s)[1..] == before[1..] + s;
      TrimStartDrops(before[1..], s);
    }
  }

  lemma {:induction false} TrimEndDrops(s: string, after: string)
    requires AllBlank(after) && s != "" && !IsBlankChar(s[|s| - 1])
    ensures TrimEnd(s + after) == s
    decreases |after|
  {
    hide IsBlankChar;
    if after == "" {
      assert s + after == s;
    } else {
      var whole := s + after;
      assert whole[..|whole| - 1] == s + after[..|after| - 1];
      TrimEndDrops(s, after[..|after| - 1]);
    }
  }

  /** A status is recognised in small letters, and with any blanks around it. */
  lemma StatusIsRecognised(before: string, status: string, after: string)
    requires AllBlank(before) && AllBlank(after)
    requires status != "" && forall i :: 0 <= i < |status| ==> 'A' <= status[i] <= 'Z' || status[i] == '_'
    ensures NormalizeStatus(Text(before + Lowered(status) + after)) == status
    ensures NormalizeStatus(Text(before + status + after)) == status
    ensures NormalizeId(Text(before + status + after)) == status
  {
    NotBlankAtEnds(status);
    hide IsBlankChar, Upper, Lowered;
    UpperOfLowered(status);
    UpperOfCapitals(status);
    TrimDropsBlanks(before, status, after);
    TrimDropsBlanks(before, Lowered(status), after);
  }

  lemma NotBlankAtEnds(status: string)
    requires status != "" && forall i :: 0 <= i < |status| ==> 'A' <= status[i] <= 'Z' || status[i] == '_'
    ensures !IsBlankChar(status[0]) && !IsBlankChar(status[|status| - 1])
    ensures Lowered(status) != "" && !IsBlankChar(Lowered(status)[0])
    ensures !IsBlankChar(Lowered(status)[|Lowered(status)| - 1])
  {
  }

  lemma TrimDropsBlanks(before: string, s: string, after: string)
    requires AllBlank(before) && AllBlank(after)
    requires s != "" && !IsBlankChar(s[0]) && !IsBlankChar(s[|s| - 1])
    ensures Trim(before + s + after) == s
  {
    hide IsBlankChar, TrimStart, TrimEnd;
    assert before + s + after == before + (s + after);
    TrimStartDrops(before, s + after);
    TrimEndDrops(s, after);
  }
}
