/**
 The statements of customer-invite-store.ts, one function per SQL statement, and what the
 TypeScript around them answers. Delivery itself happens outside the database, between statements.
 */
module InviteStore {
  import opened Wrappers
  import opened Text
  import opened Ledger

  datatype Error =
    | Unauthorized | Validation | KeyRequired | KeyReused | InProgress | AtomicityFailed | DuplicateRow

  /** `terms.email` is as the caller sent it. */
  datatype Command = Command(
    workspace: string, actor: string, key: string, route: Route, digest: string,
    commandId: string, leaseToken: string, terms: InviteTerms)

  datatype Delivery = Delivery(
    command: Command, invitationId: string, providerStatus: string,
    eventId: string, outboxId: string, watermark: nat)

  datatype Failure = Failure(command: Command, errorCode: string, eventId: string)

  datatype Reservation =
    | Acquired(commandId: string, leaseToken: string, reconcile: bool, terms: InviteTerms)
    | AlreadyDelivered(commandId: string, receipt: InviteReceipt)

  /** The first complaint of the input validator, if any. */
  function CommandError(c: Command): Option<Error> {
    if c.workspace == "" || c.actor == "" || Trim(c.terms.email) == ""
       || c.commandId == "" || c.leaseToken == "" || c.key == "" then Some(Validation)
    else if c.route != InviteRoute || |c.key| > 200 then Some(KeyRequired)
    else if !IsDigest(c.digest) then Some(Validation)
    else if Trim(c.workspace) == "" then Some(Unauthorized)
    else None
  }

  function NormalEmail(terms: InviteTerms): InviteTerms {
    terms.(email := Lower(Trim(terms.email)))
  }

  /** A stored receipt is only handed out when none of its parts is empty. */
  function ReadReceipt(body: Body, replayed: bool): Result<InviteReceipt, Error> {
    if body.Delivered? && Readable(body.invite) then Ok(body.invite.(replayed := replayed))
    else Err(AtomicityFailed)
  }

  predicate Readable(r: InviteReceipt) {
    r.invitationId != "" && r.terms.email != "" && r.terms.clerkRole != "" && r.eventId != "" && r.outboxId != ""
  }

  /* ---------------- reserve: insert, select, reclaim ---------------- */

  ghost function FindCommand(db: Db, c: Command): Option<nat> {
    FindStrict(db, c.workspace, c.actor, c.route, c.key)
  }

  function PendingRow(c: Command, leaseUntil: nat): KeyRow {
    KeyRow(c.workspace, c.key, c.route, Some(c.actor), Some(c.digest), AuthorityStrict, None,
           Pending(false, c.commandId, c.leaseToken, leaseUntil, NormalEmail(c.terms), None, None))
  }

  /** First statement: `INSERT ... ON CONFLICT DO NOTHING`. `leaseUntil` comes from the worker's own clock. */
  ghost function InsertPending(db: Db, c: Command, leaseUntil: nat): Db {
    if CommandError(c).Some? || FindCommand(db, c).Some? then db
    else db.(keys := db.keys[db.nextKey := PendingRow(c, leaseUntil)], nextKey := db.nextKey + 1)
  }

  predicate LeaseActive(body: Body, now: nat) {
    body.Pending? && body.leaseExpires > now
  }

  datatype Selection = Answer(answer: Result<Reservation, Error>) | TryReclaim(id: nat)

  /** Second statement: read the existing row and decide. */
  ghost function SelectCommand(db: Db, c: Command): Selection {
    match FindCommand(db, c)
    case None => Answer(Err(AtomicityFailed))
    case Some(id) =>
      var row := db.keys[id];
      if row.digest != Some(c.digest) then Answer(Err(KeyReused))
      else if row.status.Some? && !row.body.Null? then
        Answer(match ReadReceipt(row.body, true)
               case Ok(r) => Ok(AlreadyDelivered(Or(r.commandId, c.commandId), r))
               case Err(e) => Err(e))
      else if LeaseActive(row.body, db.now) then Answer(Err(InProgress))
      else TryReclaim(id)
  }

  predicate CanReclaim(db: Db, id: nat) {
    id in db.keys && db.keys[id].status.None? && !LeaseActive(db.keys[id].body, db.now)
  }

  /** Third statement: `UPDATE ... WHERE id = .. AND response_status IS NULL AND lease_expires_at <= now()`. */
  function Reclaim(db: Db, id: nat, token: string, leaseUntil: nat): Db {
    if CanReclaim(db, id) && db.keys[id].body.Pending? then
      var row := db.keys[id];
      db.(keys := db.keys[id :=
            row.(body := row.body.(failed := false, leaseToken := token, leaseExpires := leaseUntil))])
    else db
  }

  function Fallback(stored: InviteTerms, sent: InviteTerms): InviteTerms {
    InviteTerms(Or(stored.email, sent.email), Or(stored.clerkRole, sent.clerkRole),
                Or(stored.workspaceRole, sent.workspaceRole), Or(stored.requestedRole, sent.requestedRole),
                Or(stored.roleBasis, sent.roleBasis))
  }

  /** What the worker makes of the row returned by the third statement. */
  function ReclaimAnswer(db: Db, id: nat, c: Command): Result<Reservation, Error> {
    if CanReclaim(db, id) && db.keys[id].body.Pending? && db.keys[id].body.commandId != "" then
      var body := db.keys[id].body;
      Ok(Acquired(body.commandId, c.leaseToken, true, Fallback(body.terms, NormalEmail(c.terms))))
    else Err(InProgress)
  }

  /* ---------------- finalize ---------------- */

  /** The row is still pending under exactly this command, digest and lease token. */
  predicate HeldBy(row: KeyRow, c: Command) {
    && StrictMatch(row, c.workspace, c.actor, c.route, c.key)
    && row.digest == Some(c.digest) && row.status.None?
    && row.body.Pending? && row.body.commandId == c.commandId && row.body.leaseToken == c.leaseToken
  }

  ghost function FindHeld(db: Db, c: Command): (r: Option<nat>)
    ensures r.Some? ==> r.value in db.keys && HeldBy(db.keys[r.value], c)
  {
    var f := FindCommand(db, c);
    if f.Some? && HeldBy(db.keys[f.value], c) then f else None
  }

  function DeliveryError(f: Delivery): Option<Error> {
    if CommandError(f.command).Some? then CommandError(f.command)
    else if f.invitationId == "" || f.eventId == "" || f.outboxId == "" then Some(Validation)
    else None
  }

  function DeliveredReceipt(f: Delivery, auditId: nat): InviteReceipt {
    var c := f.command;
    InviteReceipt(c.commandId, f.invitationId, f.providerStatus, NormalEmail(c.terms), c.workspace,
                  f.eventId, auditId, f.outboxId, f.watermark, false)
  }

  /** The statement finds its command and both caller-chosen primary keys are free. */
  ghost predicate Finalizes(db: Db, f: Delivery) {
    && DeliveryError(f).None? && FindHeld(db, f.command).Some?
    && f.eventId !in db.events && f.outboxId !in db.outbox
  }

  function CompletedRow(row: KeyRow, f: Delivery, auditId: nat): KeyRow {
    row.(status := Some(201), body := Delivered(DeliveredReceipt(f, auditId)))
  }

  /** The single statement of finalize: event, audit, outbox and completed response, or nothing. */
  ghost function Finalize(db: Db, f: Delivery): Db {
    if Finalizes(db, f) then
      var id := FindHeld(db, f.command).value;
      Commit(db, id, CompletedRow(db.keys[id], f, db.nextAudit))
    else db
  }

  /** What finalize answers straight from its statement; None when it must read back. */
  ghost function FinalizeAnswer(db: Db, f: Delivery): Option<Result<InviteReceipt, Error>> {
    if DeliveryError(f).Some? then Some(Err(DeliveryError(f).value))
    else if Finalizes(db, f) then Some(ReadReceipt(Delivered(DeliveredReceipt(f, db.nextAudit)), false))
    else if FindHeld(db, f.command).Some? then Some(Err(DuplicateRow))
    else None
  }

  /** The read-back of a finalize that found no command of its own. */
  ghost function ReadBack(db: Db, c: Command): Result<InviteReceipt, Error> {
    match FindCommand(db, c)
    case None => Err(AtomicityFailed)
    case Some(id) =>
      if db.keys[id].digest != Some(c.digest) || db.keys[id].status.None? then Err(AtomicityFailed)
      else ReadReceipt(db.keys[id].body, true)
  }

  /* ---------------- delivery failure ---------------- */

  predicate FailureSkipped(f: Failure) {
    var c := f.command;
    c.workspace == "" || c.actor == "" || c.commandId == "" || c.leaseToken == ""
    || Trim(c.terms.email) == "" || f.eventId == "" || Trim(c.workspace) == ""
  }

  function FailureCode(code: string): string {
    var s := Or(code, "INVITE_DELIVERY_FAILED");
    if |s| > 120 then s[..120] else s
  }

  /** Releases the lease at database time and records a failed event and an audit row, or does nothing. */
  ghost function RecordFailure(db: Db, f: Failure): Db {
    var c := f.command;
    if FailureSkipped(f) || FindHeld(db, c).None? || f.eventId in db.events then db
    else
      var id := FindHeld(db, c).value;
      var row := db.keys[id];
      var body := row.body.(failed := true, leaseExpires := db.now,
                            lastError := Some(FailureCode(f.errorCode)), lastAttempt := Some(db.now));
      db.(keys := db.keys[id := row.(body := body)],
          events := db.events[f.eventId := Event(c.workspace, c.actor, InviteFailed)],
          audits := db.audits[db.nextAudit := Audit(c.workspace, c.actor, InviteFailed, f.eventId, c.commandId, None)],
          nextAudit := db.nextAudit + 1)
  }

  /* ---------------- every statement keeps the invariant ---------------- */

  lemma InsertPendingKeeps(db: Db, c: Command, leaseUntil: nat)
    requires Inv(db)
    ensures Inv(InsertPending(db, c, leaseUntil))
  {
    if CommandError(c).None? && FindCommand(db, c).None? {
      var row := PendingRow(c, leaseUntil);
      forall i | i in db.keys ensures SlotOf(db.keys[i]) != SlotOf(row) {
        assert !StrictMatch(db.keys[i], c.workspace, c.actor, c.route, c.key);
      }
      InsertKeepsInv(db, row);
    }
  }

  lemma ReclaimKeeps(db: Db, id: nat, token: string, leaseUntil: nat)
    requires Inv(db)
    ensures Inv(Reclaim(db, id, token, leaseUntil))
  {
    if CanReclaim(db, id) && db.keys[id].body.Pending? {
      var row := db.keys[id];
      assert WellFormedRow(row);
      RewriteKeepsInv(db, id,
                      row.(body := row.body.(failed := false, leaseToken := token, leaseExpires := leaseUntil)));
    }
  }

  lemma FinalizeKeeps(db: Db, f: Delivery)
    requires Inv(db)
    ensures Inv(Finalize(db, f))
  {
    if Finalizes(db, f) {
      var id := FindHeld(db, f.command).value;
      assert WellFormedRow(db.keys[id]);
      CommitKeepsInv(db, id, CompletedRow(db.keys[id], f, db.nextAudit));
    }
  }

  lemma RecordFailureKeeps(db: Db, f: Failure)
    requires Inv(db)
    ensures Inv(RecordFailure(db, f))
  {
    var d := RecordFailure(db, f);
    if d != db {
      var c := f.command;
      var id := FindHeld(db, c).value;
      assert WellFormedRow(db.keys[id]);
      var mid := db.(keys := d.keys);
      RewriteKeepsInv(db, id, d.keys[id]);
      AddFailureRecord(mid, f.eventId, d.events[f.eventId], d.audits[db.nextAudit]);
    }
  }

  /** Rows of kind InviteFailed are outside the claim bookkeeping. */
  lemma AddFailureRecord(db: Db, eventId: string, e: Event, a: Audit)
    requires Inv(db) && eventId !in db.events && e.kind == InviteFailed && a.kind == InviteFailed
    ensures Inv(db.(events := db.events[eventId := e], audits := db.audits[db.nextAudit := a],
                    nextAudit := db.nextAudit + 1))
  {
    var d := db.(events := db.events[eventId := e], audits := db.audits[db.nextAudit := a],
                 nextAudit := db.nextAudit + 1);
    assert ClaimsGrounded(d) by {
      forall i | i in d.keys ensures WellFormedRow(d.keys[i]) && Grounded(d, d.keys[i]) {
        assert Grounded(db, db.keys[i]);
      }
    }
    assert EffectsClaimed(d) by {
      forall k | k in d.events && d.events[k].kind != InviteFailed ensures EventClaimed(d, k) {
        assert EventClaimed(db, k);
      }
      forall k | k in d.audits && d.audits[k].kind != InviteFailed ensures AuditClaimed(d, k) {
        assert AuditClaimed(db, k);
      }
      forall k | k in d.outbox ensures OutboxClaimed(d, k) {
        assert OutboxClaimed(db, k);
      }
    }
    assert UniqueKeys(d) && ClaimsDisjoint(d) && OneActive(d);
  }

  lemma InsertPendingOnRow(db: Db, c: Command, leaseUntil: nat, i: nat)
    requires i in db.keys && i < db.nextKey && WellFormedRow(db.keys[i])
    ensures KeepsRow(db, InsertPending(db, c, leaseUntil), i)
  {
  }

  lemma ReclaimOnRow(db: Db, id: nat, token: string, leaseUntil: nat, i: nat)
    requires i in db.keys && i < db.nextKey && WellFormedRow(db.keys[i])
    ensures KeepsRow(db, Reclaim(db, id, token, leaseUntil), i)
  {
  }

  lemma FinalizeOnRow(db: Db, f: Delivery, i: nat)
    requires i in db.keys && i < db.nextKey && WellFormedRow(db.keys[i])
    ensures KeepsRow(db, Finalize(db, f), i)
  {
  }

  lemma RecordFailureOnRow(db: Db, f: Failure, i: nat)
    requires i in db.keys && i < db.nextKey && WellFormedRow(db.keys[i])
    ensures KeepsRow(db, RecordFailure(db, f), i)
  {
  }
}
