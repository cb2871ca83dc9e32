/**
 The strict consent and revoke commands of customer-authority-store.ts, the operator approval
 (explicit, or implied by provisioning), the replay reader of customer-authority-strict.ts and
 the unlock state.
 */
module AuthorityStore {
  import opened Wrappers
  import opened Text
  import opened Ledger

  datatype Error =
    | Unauthorized | Validation | KeyRequired | KeyReused | AtomicityFailed | NotFound | DuplicateRow | Internal

  /** The part of a command that identifies its claim. */
  datatype Claim = Claim(workspace: string, actor: string, key: string, digest: string, route: Route)

  datatype Ack = Ack(
    claim: Claim, nanoid: string, fullName: string, accessRequest: Option<string>, version: string,
    autoApprover: string, eventId: string, outboxId: string, at: nat)

  datatype Withdrawal = Withdrawal(
    claim: Claim, reason: string, eventId: string, outboxId: string, at: nat)

  datatype Approval = Approval(
    workspace: string, operator: string, nanoid: string, accessRequest: Option<string>)

  function ClaimError(c: Claim, route: Route): Option<Error> {
    if Trim(c.workspace) == "" then Some(Unauthorized)
    else if Trim(c.key) == "" || |c.key| > 200 then Some(KeyRequired)
    else if !IsDigest(c.digest) then Some(Validation)
    else if c.route != route then Some(Validation)
    else None
  }

  function AckError(a: Ack): Option<Error> {
    if a.claim.workspace == "" || a.claim.actor == "" || Trim(a.fullName) == "" || a.eventId == "" || a.outboxId == ""
    then Some(Validation)
    else ClaimError(a.claim, ConsentRoute)
  }

  function WithdrawalError(w: Withdrawal): Option<Error> {
    if w.claim.workspace == "" || w.claim.actor == "" || w.eventId == "" || w.outboxId == "" then Some(Validation)
    else ClaimError(w.claim, RevokeRoute)
  }

  function ConsentId(nanoid: string): string { "auth_" + nanoid }

  /** An empty operator id counts as none. */
  function Approver(a: Ack): Option<string> { NonEmpty(a.autoApprover) }

  function OrDefault(version: string): string { Or(version, "authority_v1") }

  function NonEmpty(s: string): Option<string> { if s == "" then None else Some(s) }

  /* ---------------- operator approval: explicit, and the same upsert in provisioning ---------------- */

  predicate ApprovalRefused(a: Approval) {
    a.workspace == "" || a.operator == "" || Trim(a.workspace) == ""
  }

  /** The insert collides with a consent id that is already taken. */
  ghost predicate ApprovalCollides(db: Db, a: Approval) {
    FindActive(db, a.workspace).None? && ConsentId(a.nanoid) in db.consents
  }

  ghost function Approve(db: Db, a: Approval): Db {
    if ApprovalRefused(a) || ApprovalCollides(db, a) then db
    else match FindActive(db, a.workspace)
      case None =>
        db.(consents := db.consents[ConsentId(a.nanoid) :=
          Consent(a.workspace, a.accessRequest, Some(db.now), Some(a.operator), None, None, None, "authority_v1",
                  None, None, None, db.now)])
      case Some(id) =>
        var c := db.consents[id];
        db.(consents := db.consents[id :=
          c.(approvedAt := Some(db.now), approvedBy := Some(a.operator),
             accessRequest := Coalesce(a.accessRequest, c.accessRequest), updatedAt := db.now)])
  }

  /* ---------------- consent acknowledgement ---------------- */

  function AckedConsent(prior: Option<Consent>, a: Ack): Consent {
    var name := Some(Trim(a.fullName));
    match prior
    case None =>
      Consent(a.claim.workspace, a.accessRequest,
              if Approver(a).Some? then Some(a.at) else None, Approver(a),
              Some(a.at), Some(a.claim.actor), name, OrDefault(a.version), None, None, None, a.at)
    case Some(c) =>
      c.(approvedAt := if Approver(a).None? then c.approvedAt else Coalesce(c.approvedAt, Some(a.at)),
         approvedBy := if Approver(a).None? then c.approvedBy else Coalesce(c.approvedBy, Approver(a)),
         ackedAt := Some(a.at), ackedBy := Some(a.claim.actor), fullName := name, version := OrDefault(a.version),
         accessRequest := Coalesce(a.accessRequest, c.accessRequest), updatedAt := a.at)
  }

  ghost function AckTarget(db: Db, a: Ack): string {
    var active := FindActive(db, a.claim.workspace);
    if active.Some? then active.value else ConsentId(a.nanoid)
  }

  ghost function AckPrior(db: Db, a: Ack): Option<Consent> {
    var active := FindActive(db, a.claim.workspace);
    if active.Some? then Some(db.consents[active.value]) else None
  }

  ghost function FindClaim(db: Db, c: Claim): Option<nat> {
    FindStrict(db, c.workspace, c.actor, c.route, Trim(c.key))
  }

  /** The row `strict_claim` inserts, already complete. */
  function ClaimRow(c: Claim, status: int, receipt: AuthorityReceipt): KeyRow {
    KeyRow(c.workspace, Trim(c.key), c.route, Some(c.actor), Some(c.digest), AuthorityStrict,
           Some(status), Authority(receipt))
  }

  datatype Outcome =
    | Refused(error: Error)             // before any SQL, or a 404 of the assertion
    | Collided                          // some other primary key is taken: the raw error is rethrown
    | ClaimTaken                        // the claim exists: the stored response is read back
    | Committed(receipt: AuthorityReceipt)

  ghost function AckReceipt(db: Db, a: Ack): AuthorityReceipt {
    AuthorityReceipt(AckTarget(db, a), AckedConsent(AckPrior(db, a), a), a.eventId, db.nextAudit, a.outboxId, a.at,
                     false)
  }

  /** The effect rows are written before the claim, so their key errors win. */
  ghost function AckOutcome(db: Db, a: Ack): Outcome {
    if AckError(a).Some? then Refused(AckError(a).value)
    else if FindActive(db, a.claim.workspace).None? && ConsentId(a.nanoid) in db.consents then Collided
    else if a.eventId in db.events || a.outboxId in db.outbox then Collided
    else if FindClaim(db, a.claim).Some? then ClaimTaken
    else Committed(AckReceipt(db, a))
  }

  /** One statement: consent, event, audit, outbox and claim together, or nothing. */
  ghost function Acknowledge(db: Db, a: Ack): Db {
    match AckOutcome(db, a)
    case Committed(receipt) =>
      Commit(db.(consents := db.consents[receipt.consentId := receipt.consent]), db.nextKey,
             ClaimRow(a.claim, 202, receipt))
    case _ => db
  }

  /* ---------------- revoke ---------------- */

  function RevokedConsent(c: Consent, w: Withdrawal): Consent {
    c.(revokedAt := Some(w.at), revokedBy := Some(w.claim.actor), revokedReason := NonEmpty(Trim(w.reason)),
       updatedAt := w.at)
  }

  ghost function WithdrawalReceipt(db: Db, w: Withdrawal): AuthorityReceipt
    requires FindActive(db, w.claim.workspace).Some?
  {
    var id := FindActive(db, w.claim.workspace).value;
    AuthorityReceipt(id, RevokedConsent(db.consents[id], w), w.eventId, db.nextAudit, w.outboxId, w.at, false)
  }

  /** With no active consent the effect rows are not attempted: only the claim can collide. */
  ghost function WithdrawalOutcome(db: Db, w: Withdrawal): Outcome {
    if WithdrawalError(w).Some? then Refused(WithdrawalError(w).value)
    else if FindActive(db, w.claim.workspace).Some? && (w.eventId in db.events || w.outboxId in db.outbox) then Collided
    else if FindClaim(db, w.claim).Some? then ClaimTaken
    else if FindActive(db, w.claim.workspace).None? then Refused(NotFound)
    else Committed(WithdrawalReceipt(db, w))
  }

  ghost function Withdraw(db: Db, w: Withdrawal): Db {
    match WithdrawalOutcome(db, w)
    case Committed(receipt) =>
      Commit(db.(consents := db.consents[receipt.consentId := receipt.consent]), db.nextKey,
             ClaimRow(w.claim, 200, receipt))
    case _ => db
  }

  /* ---------------- replay ---------------- */

  /** Reading back the stored response of a repeated command. */
  ghost function ReadReplay(db: Db, c: Claim): Result<AuthorityReceipt, Error> {
    match FindClaim(db, c)
    case None => Err(Internal)
    case Some(id) =>
      var row := db.keys[id];
      if row.digest != Some(c.digest) then Err(KeyReused)
      else if row.status.None? || row.body.Null? then Err(AtomicityFailed)
      else RehydrateReceipt(row.body)
  }

  function RehydrateReceipt(body: Body): Result<AuthorityReceipt, Error> {
    if body.Authority? && body.authority.consentId != "" && body.authority.eventId != ""
      && body.authority.outboxId != ""
    then Ok(body.authority.(replayed := true))
    else Err(Internal)
  }

  /** The answer of a strict command whose statement ran in `db` and whose read-back, if any, ran in `later`. */
  ghost function Answer(outcome: Outcome, later: Db, c: Claim): Result<AuthorityReceipt, Error> {
    match outcome
    case Refused(e) => Err(e)
    case Collided => Err(DuplicateRow)
    case ClaimTaken => ReadReplay(later, c)
    case Committed(r) => Ok(r)
  }

  /* ---------------- unlock state ---------------- */

  datatype State = State(unlocked: bool, approved: bool, acked: bool)

  ghost function AuthorityState(db: Db, workspace: string): State {
    match FindActive(db, workspace)
    case None => State(false, false, false)
    case Some(id) =>
      var c := db.consents[id];
      State(c.approvedAt.Some? && c.ackedAt.Some?, c.approvedAt.Some?, c.ackedAt.Some?)
  }

  /* ---------------- every statement keeps the invariant ---------------- */

  /** Putting an active or revoked consent of `workspace` at the one place it may go. */
  lemma PutConsentKeeps(db: Db, id: string, c: Consent)
    requires Inv(db)
    requires id != ""
    requires c.revokedAt.None? ==>
               && (FindActive(db, c.workspace).Some? ==> FindActive(db, c.workspace) == Some(id))
    ensures Inv(db.(consents := db.consents[id := c]))
  {
    var d := db.(consents := db.consents[id := c]);
    PutConsentKeepsOneActive(db, d, id, c);
    assert UniqueKeys(d) && ClaimsDisjoint(d);
    assert ClaimsGrounded(d) by {
      forall i | i in d.keys ensures WellFormedRow(d.keys[i]) && Grounded(d, d.keys[i]) {
        assert Grounded(db, db.keys[i]);
      }
    }
    CarryCitations(db, d);
  }

  lemma PutConsentKeepsOneActive(db: Db, d: Db, id: string, c: Consent)
    requires OneActive(db) && d.consents == db.consents[id := c]
    requires c.revokedAt.None? && FindActive(db, c.workspace).Some? ==> FindActive(db, c.workspace) == Some(id)
    ensures OneActive(d)
  {
    forall i, j | i in d.consents && j in d.consents
                  && d.consents[i].revokedAt.None? && d.consents[j].revokedAt.None?
                  && d.consents[i].workspace == d.consents[j].workspace
      ensures i == j
    {
      if i == id && j != id {
        FindActiveUnique(db, j);
      } else if j == id && i != id {
        FindActiveUnique(db, i);
      }
    }
  }

  lemma ApproveKeeps(db: Db, a: Approval)
    requires Inv(db)
    ensures Inv(Approve(db, a))
  {
    if !ApprovalRefused(a) && !ApprovalCollides(db, a) {
      var active := FindActive(db, a.workspace);
      var id := if active.Some? then active.value else ConsentId(a.nanoid);
      PutConsentKeeps(db, id, Approve(db, a).consents[id]);
    }
  }

  lemma ClaimSlotFree(db: Db, c: Claim, row: KeyRow)
    requires FindClaim(db, c).None?
    requires StrictMatch(row, c.workspace, c.actor, c.route, Trim(c.key))
    ensures FreeSlot(db.keys, SlotOf(row))
  {
    forall i | i in db.keys ensures SlotOf(db.keys[i]) != SlotOf(row) {
      assert !StrictMatch(db.keys[i], c.workspace, c.actor, c.route, Trim(c.key));
    }
  }

  lemma CommitClaimKeeps(db: Db, c: Claim, status: int, receipt: AuthorityReceipt)
    requires Inv(db) && FindClaim(db, c).None?
    requires (c.route == ConsentRoute && status == 202) || (c.route == RevokeRoute && status == 200)
    requires receipt.consentId != "" && receipt.eventId != "" && receipt.outboxId != ""
    requires receipt.eventId !in db.events && receipt.outboxId !in db.outbox && receipt.auditId == db.nextAudit
    requires receipt.consent.revokedAt.None? ==>
               FindActive(db, receipt.consent.workspace).Some? ==>
                 FindActive(db, receipt.consent.workspace) == Some(receipt.consentId)
    ensures Inv(Commit(db.(consents := db.consents[receipt.consentId := receipt.consent]), db.nextKey,
                       ClaimRow(c, status, receipt)))
  {
    var row := ClaimRow(c, status, receipt);
    var mid := db.(consents := db.consents[receipt.consentId := receipt.consent]);
    PutConsentKeeps(db, receipt.consentId, receipt.consent);
    ClaimSlotFree(db, c, row);
    CommitKeepsInv(mid, db.nextKey, row);
  }

  lemma AcknowledgeKeeps(db: Db, a: Ack)
    requires Inv(db)
    ensures Inv(Acknowledge(db, a))
  {
    if AckOutcome(db, a).Committed? {
      CommitClaimKeeps(db, a.claim, 202, AckReceipt(db, a));
    }
  }

  lemma WithdrawKeeps(db: Db, w: Withdrawal)
    requires Inv(db)
    ensures Inv(Withdraw(db, w))
  {
    if WithdrawalOutcome(db, w).Committed? {
      CommitClaimKeeps(db, w.claim, 200, WithdrawalReceipt(db, w));
    }
  }

  lemma ApproveOnRow(db: Db, a: Approval, i: nat)
    requires i in db.keys && i < db.nextKey && WellFormedRow(db.keys[i])
    ensures KeepsRow(db, Approve(db, a), i)
  {
  }

  lemma AcknowledgeOnRow(db: Db, a: Ack, i: nat)
    requires i in db.keys && i < db.nextKey && WellFormedRow(db.keys[i])
    ensures KeepsRow(db, Acknowledge(db, a), i)
  {
  }

  lemma WithdrawOnRow(db: Db, w: Withdrawal, i: nat)
    requires i in db.keys && i < db.nextKey && WellFormedRow(db.keys[i])
    ensures KeepsRow(db, Withdraw(db, w), i)
  {
  }
}
