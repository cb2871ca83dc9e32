/**
 The shared tables: idempotency keys, operation events, audit rows, the projection
 outbox and customer consents, with the invariant every statement keeps.

 Rows of the key table carry all their columns and live under a serial id, as in the
 database: that the two partial unique indexes hold is part of the invariant.
 */
module Ledger {
  import opened Wrappers

  /**
   POST /api/v1/customer/invites, POST /api/v1/customer/authority-consent and its /revoke, or any other path.
   */
  datatype Route = InviteRoute | ConsentRoute | RevokeRoute | OtherRoute(path: string)

  datatype Mode = RetryGuard | AuthorityStrict

  /** What a first invitation request asked for. */
  datatype InviteTerms = InviteTerms(
    email: string, clerkRole: string, workspaceRole: string, requestedRole: string, roleBasis: string)

  datatype InviteReceipt = InviteReceipt(
    commandId: string, invitationId: string, providerStatus: string, terms: InviteTerms,
    workspace: string, eventId: string, auditId: nat, outboxId: string,
    watermark: nat, replayed: bool)

  datatype Consent = Consent(
    workspace: string, accessRequest: Option<string>,
    approvedAt: Option<nat>, approvedBy: Option<string>,
    ackedAt: Option<nat>, ackedBy: Option<string>, fullName: Option<string>, version: string,
    revokedAt: Option<nat>, revokedBy: Option<string>, revokedReason: Option<string>,
    updatedAt: nat)

  datatype AuthorityReceipt = AuthorityReceipt(
    consentId: string, consent: Consent, eventId: string, auditId: nat, outboxId: string,
    watermark: nat, replayed: bool)

  /** The JSON bodies the protocols store in `response_body`. */
  datatype Body =
    | Null
    | Pending(failed: bool, commandId: string, leaseToken: string, leaseExpires: nat,
              terms: InviteTerms, lastError: Option<string>, lastAttempt: Option<nat>)
    | Delivered(invite: InviteReceipt)
    | Authority(authority: AuthorityReceipt)
    | Response(json: string)

  datatype KeyRow = KeyRow(
    workspace: string, key: string, route: Route, actor: Option<string>,
    digest: Option<string>, mode: Mode, status: Option<int>, body: Body)

  datatype EventKind = InviteDelivered | InviteFailed | ConsentRecorded | AuthorityRevoked

  datatype Event = Event(workspace: string, actor: string, kind: EventKind)

  /** `subject` is the command or consent id kept in the audit metadata, `cause` the event id. */
  datatype Audit = Audit(
    workspace: string, actor: string, kind: EventKind, cause: string, subject: string,
    digest: Option<string>)

  datatype Outbox = Outbox(
    workspace: string, kind: EventKind, aggregate: string, eventId: string, auditId: nat,
    digest: string)

  datatype Db = Db(
    now: nat,
    keys: map<nat, KeyRow>, nextKey: nat,
    events: map<string, Event>,
    audits: map<nat, Audit>, nextAudit: nat,
    outbox: map<string, Outbox>,
    consents: map<string, Consent>)

  const EMPTY := Db(0, map[], 0, map[], map[], 0, map[], map[])

  /* ---------------- the two partial unique indexes ---------------- */

  predicate StrictMatch(row: KeyRow, workspace: string, actor: string, route: Route, key: string) {
    && row.mode == AuthorityStrict && row.workspace == workspace && row.actor == Some(actor)
    && row.route == route && row.key == key
  }

  predicate GuardMatch(row: KeyRow, workspace: string, key: string) {
    row.mode == RetryGuard && row.workspace == workspace && row.key == key
  }

  /** The index entry of a row. */
  datatype Slot =
    | GuardSlot(workspace: string, key: string)
    | StrictSlot(workspace: string, actor: Option<string>, route: Route, key: string)

  function SlotOf(row: KeyRow): Slot {
    match row.mode
    case RetryGuard => GuardSlot(row.workspace, row.key)
    case AuthorityStrict => StrictSlot(row.workspace, row.actor, row.route, row.key)
  }

  ghost predicate UniqueSlots(keys: map<nat, KeyRow>) {
    forall i, j | i in keys && j in keys && SlotOf(keys[i]) == SlotOf(keys[j]) :: i == j
  }

  ghost predicate FreeSlot(keys: map<nat, KeyRow>, slot: Slot) {
    forall i | i in keys :: SlotOf(keys[i]) != slot
  }

  ghost predicate UniqueKeys(db: Db) {
    && (forall i | i in db.keys :: i < db.nextKey)
    && UniqueSlots(db.keys)
  }

  /** `SELECT ... LIMIT 1` on the strict index. */
  ghost function FindStrict(db: Db, workspace: string, actor: string, route: Route, key: string): (r: Option<nat>)
    ensures r.Some? ==> r.value in db.keys && StrictMatch(db.keys[r.value], workspace, actor, route, key)
    ensures r.None? ==> forall i | i in db.keys :: !StrictMatch(db.keys[i], workspace, actor, route, key)
  {
    if i :| i in db.keys && StrictMatch(db.keys[i], workspace, actor, route, key) then Some(i) else None
  }

  /** `SELECT ... LIMIT 1` on the retry-guard index. */
  ghost function FindGuard(db: Db, workspace: string, key: string): (r: Option<nat>)
    ensures r.Some? ==> r.value in db.keys && GuardMatch(db.keys[r.value], workspace, key)
    ensures r.None? ==> forall i | i in db.keys :: !GuardMatch(db.keys[i], workspace, key)
  {
    if i :| i in db.keys && GuardMatch(db.keys[i], workspace, key) then Some(i) else None
  }

  /* ---------------- claims and what they cite ---------------- */

  datatype Citation = Citation(kind: EventKind, eventId: string, auditId: nat, outboxId: string, subject: string)

  /** The event, audit row and outbox row named by a completed strict claim. */
  function Cites(row: KeyRow): Option<Citation> {
    match row.body
    case Delivered(r) => Some(Citation(InviteDelivered, r.eventId, r.auditId, r.outboxId, r.commandId))
    case Authority(r) =>
      Some(Citation(if row.route == ConsentRoute then ConsentRecorded else AuthorityRevoked,
                    r.eventId, r.auditId, r.outboxId, r.consentId))
    case _ => None
  }

  predicate CitesEvent(row: KeyRow, e: string) { Cites(row).Some? && Cites(row).value.eventId == e }

  predicate CitesAudit(row: KeyRow, a: nat) { Cites(row).Some? && Cites(row).value.auditId == a }

  predicate CitesOutbox(row: KeyRow, o: string) { Cites(row).Some? && Cites(row).value.outboxId == o }

  /** Columns that belong together, per namespace and per route. */
  predicate WellFormedRow(row: KeyRow) {
    match row.mode
    case RetryGuard =>
      && row.actor.None? && row.digest.None?
      && (row.body.Null? || row.body.Response?)
      && (row.status.None? ==> row.body.Null?)
    case AuthorityStrict =>
      && row.actor.Some? && row.digest.Some?
      && match row.body {
        case Pending(_, commandId, _, _, terms, _, _) =>
          row.route == InviteRoute && row.status.None? && commandId != "" && terms.email != ""
        case Delivered(r) =>
          && row.route == InviteRoute && row.status == Some(201)
          && r.commandId != "" && r.invitationId != "" && r.terms.email != "" && r.eventId != "" && r.outboxId != ""
        case Authority(r) =>
          && r.consentId != "" && r.eventId != "" && r.outboxId != ""
          && ((row.route == ConsentRoute && row.status == Some(202))
              || (row.route == RevokeRoute && row.status == Some(200)))
        case _ => false
      }
  }

  /** The cited rows exist and name each other, the workspace, the actor and the digest of the claim. */
  predicate Grounded(db: Db, row: KeyRow)
    requires WellFormedRow(row)
  {
    Cites(row).Some? ==>
      var c := Cites(row).value;
      var actor := row.actor.value;
      && c.eventId in db.events && db.events[c.eventId] == Event(row.workspace, actor, c.kind)
      && c.auditId in db.audits
      && db.audits[c.auditId] == Audit(row.workspace, actor, c.kind, c.eventId, c.subject, row.digest)
      && c.outboxId in db.outbox
      && db.outbox[c.outboxId]
         == Outbox(row.workspace, c.kind, c.subject, c.eventId, c.auditId, row.digest.value)
  }

  ghost predicate ClaimsGrounded(db: Db) {
    forall i | i in db.keys :: WellFormedRow(db.keys[i]) && Grounded(db, db.keys[i])
  }

  /** Two claims never name the same event, audit row or outbox row. */
  ghost predicate ClaimsDisjoint(db: Db) {
    forall i, j | i in db.keys && j in db.keys && i != j && Cites(db.keys[i]).Some? ::
      && !CitesEvent(db.keys[j], Cites(db.keys[i]).value.eventId)
      && !CitesAudit(db.keys[j], Cites(db.keys[i]).value.auditId)
      && !CitesOutbox(db.keys[j], Cites(db.keys[i]).value.outboxId)
  }

  ghost predicate EventClaimed(db: Db, e: string) { exists i :: i in db.keys && CitesEvent(db.keys[i], e) }

  ghost predicate AuditClaimed(db: Db, a: nat) { exists i :: i in db.keys && CitesAudit(db.keys[i], a) }

  ghost predicate OutboxClaimed(db: Db, o: string) { exists i :: i in db.keys && CitesOutbox(db.keys[i], o) }

  /** Every authority event, audit row and outbox row is named by a claim. */
  ghost predicate EffectsClaimed(db: Db) {
    && (forall e {:trigger EventClaimed(db, e)} ::
          e in db.events && db.events[e].kind != InviteFailed ==> EventClaimed(db, e))
    && (forall a {:trigger AuditClaimed(db, a)} ::
          a in db.audits && db.audits[a].kind != InviteFailed ==> AuditClaimed(db, a))
    && (forall o {:trigger OutboxClaimed(db, o)} :: o in db.outbox ==> OutboxClaimed(db, o))
  }

  /* ---------------- consents ---------------- */

  predicate ActiveFor(c: Consent, workspace: string) {
    c.workspace == workspace && c.revokedAt.None?
  }

  ghost function FindActive(db: Db, workspace: string): (r: Option<string>)
    ensures r.Some? ==> r.value in db.consents && ActiveFor(db.consents[r.value], workspace)
    ensures r.None? ==> forall i | i in db.consents :: !ActiveFor(db.consents[i], workspace)
  {
    if i :| i in db.consents && ActiveFor(db.consents[i], workspace) then Some(i) else None
  }

  /** At most one un-revoked consent row per workspace. */
  ghost predicate OneActive(db: Db) {
    forall i, j | i in db.consents && j in db.consents
                  && db.consents[i].revokedAt.None? && db.consents[j].revokedAt.None?
                  && db.consents[i].workspace == db.consents[j].workspace :: i == j
  }

  ghost predicate Inv(db: Db) {
    && "" !in db.consents
    && UniqueKeys(db)
    && (forall a | a in db.audits :: a < db.nextAudit)
    && ClaimsGrounded(db)
    && ClaimsDisjoint(db)
    && EffectsClaimed(db)
    && OneActive(db)
  }

  /* ---------------- what a statement may do to one row ---------------- */

  /** Identity columns and the first reservation's terms survive; a finished row does not change at all. */
  predicate RowEvolves(before: KeyRow, after: KeyRow) {
    && SlotOf(after) == SlotOf(before) && after.route == before.route && after.digest == before.digest
    && (before.status.Some? ==> after == before)
    && (before.body.Pending? ==>
          || (after.body.Pending? && after.body.commandId == before.body.commandId
              && after.body.terms == before.body.terms)
          || (after.body.Delivered? && after.body.invite.commandId == before.body.commandId))
  }

  /** Strict rows and completed rows never leave the table; what stays evolves. */
  ghost predicate KeepsRow(db: Db, d: Db, i: nat)
    requires i in db.keys
  {
    && (db.keys[i].mode == AuthorityStrict || db.keys[i].status.Some? ==> i in d.keys)
    && (i in d.keys ==> RowEvolves(db.keys[i], d.keys[i]))
  }

  /* ---------------- lemmas about single row writes ---------------- */

  lemma RewriteKeepsSlots(keys: map<nat, KeyRow>, id: nat, row: KeyRow)
    requires UniqueSlots(keys) && id in keys && SlotOf(row) == SlotOf(keys[id])
    ensures UniqueSlots(keys[id := row])
  {
    var k := keys[id := row];
    forall i, j | i in k && j in k && SlotOf(k[i]) == SlotOf(k[j]) ensures i == j {
      assert SlotOf(keys[i]) == SlotOf(keys[j]);
    }
  }

  lemma InsertKeepsSlots(keys: map<nat, KeyRow>, id: nat, row: KeyRow)
    requires UniqueSlots(keys) && id !in keys && FreeSlot(keys, SlotOf(row))
    ensures UniqueSlots(keys[id := row])
  {
  }

  /** All rows but `id`, which cites nothing, are as before, and so are the effect tables. */
  lemma KeepGrounded(db: Db, d: Db, id: nat)
    requires ClaimsGrounded(db) && ClaimsDisjoint(db)
    requires d.events == db.events && d.audits == db.audits && d.outbox == db.outbox
    requires forall i | i in d.keys && i != id :: i in db.keys && d.keys[i] == db.keys[i]
    requires id in d.keys ==> Cites(d.keys[id]).None? && WellFormedRow(d.keys[id])
    ensures ClaimsGrounded(d) && ClaimsDisjoint(d)
  {
    forall i | i in d.keys ensures WellFormedRow(d.keys[i]) && Grounded(d, d.keys[i]) {
      assert i != id ==> Grounded(db, db.keys[i]);
    }
  }

  lemma FindStrictUnique(db: Db, i: nat)
    requires UniqueSlots(db.keys) && i in db.keys && db.keys[i].mode == AuthorityStrict && db.keys[i].actor.Some?
    ensures var r := db.keys[i]; FindStrict(db, r.workspace, r.actor.value, r.route, r.key) == Some(i)
  {
    var r := db.keys[i];
    assert StrictMatch(r, r.workspace, r.actor.value, r.route, r.key);
    var f := FindStrict(db, r.workspace, r.actor.value, r.route, r.key);
    assert SlotOf(db.keys[f.value]) == SlotOf(r);
  }

  lemma FindGuardUnique(db: Db, i: nat)
    requires UniqueSlots(db.keys) && i in db.keys && db.keys[i].mode == RetryGuard
    ensures FindGuard(db, db.keys[i].workspace, db.keys[i].key) == Some(i)
  {
    var r := db.keys[i];
    assert GuardMatch(r, r.workspace, r.key);
    var f := FindGuard(db, r.workspace, r.key);
    assert SlotOf(db.keys[f.value]) == SlotOf(r);
  }

  lemma FindActiveUnique(db: Db, id: string)
    requires OneActive(db) && id in db.consents && db.consents[id].revokedAt.None?
    ensures FindActive(db, db.consents[id].workspace) == Some(id)
  {
    assert ActiveFor(db.consents[id], db.consents[id].workspace);
  }

  /** Writing a row that cites nothing over a row that cites nothing, in the same slot. */
  lemma RewriteKeepsInv(db: Db, id: nat, row: KeyRow)
    requires Inv(db) && id in db.keys
    requires Cites(db.keys[id]).None? && Cites(row).None? && WellFormedRow(row) && SlotOf(row) == SlotOf(db.keys[id])
    ensures Inv(db.(keys := db.keys[id := row]))
  {
    var d := db.(keys := db.keys[id := row]);
    RewriteKeepsSlots(db.keys, id, row);
    KeepGrounded(db, d, id);
    CarryCitations(db, d);
  }

  /** Inserting a row that cites nothing into a free slot. */
  lemma InsertKeepsInv(db: Db, row: KeyRow)
    requires Inv(db)
    requires Cites(row).None? && WellFormedRow(row)
    requires FreeSlot(db.keys, SlotOf(row))
    ensures Inv(db.(keys := db.keys[db.nextKey := row], nextKey := db.nextKey + 1))
  {
    var d := db.(keys := db.keys[db.nextKey := row], nextKey := db.nextKey + 1);
    InsertKeepsSlots(db.keys, db.nextKey, row);
    KeepGrounded(db, d, db.nextKey);
    CarryCitations(db, d);
  }

  /** Deleting a row that cites nothing. */
  lemma DeleteKeepsInv(db: Db, id: nat)
    requires Inv(db) && id in db.keys && Cites(db.keys[id]).None?
    ensures Inv(db.(keys := db.keys - {id}))
  {
    var d := db.(keys := db.keys - {id});
    KeepGrounded(db, d, id);
    CarryCitations(db, d);
  }

  /** If every citing row survives, everything claimed before is still claimed. */
  lemma CarryCitations(db: Db, d: Db)
    requires EffectsClaimed(db)
    requires d.events == db.events && d.audits == db.audits && d.outbox == db.outbox
    requires forall i | i in db.keys && Cites(db.keys[i]).Some? :: i in d.keys && d.keys[i] == db.keys[i]
    ensures EffectsClaimed(d)
  {
    forall e | e in d.events && d.events[e].kind != InviteFailed
      ensures EventClaimed(d, e)
    {
      assert EventClaimed(db, e);
      var i :| i in db.keys && CitesEvent(db.keys[i], e);
      assert CitesEvent(d.keys[i], e);
    }
    forall a | a in d.audits && d.audits[a].kind != InviteFailed
      ensures AuditClaimed(d, a)
    {
      assert AuditClaimed(db, a);
      var i :| i in db.keys && CitesAudit(db.keys[i], a);
      assert CitesAudit(d.keys[i], a);
    }
    forall o | o in d.outbox
      ensures OutboxClaimed(d, o)
    {
      assert OutboxClaimed(db, o);
      var i :| i in db.keys && CitesOutbox(db.keys[i], o);
      assert CitesOutbox(d.keys[i], o);
    }
  }

  /** The common tail of the three strict statements: event, audit row and outbox row of `claim`, and the claim. */
  function Commit(db: Db, id: nat, claim: KeyRow): Db
    requires claim.actor.Some? && claim.digest.Some? && Cites(claim).Some?
  {
    var c := Cites(claim).value;
    var actor := claim.actor.value;
    db.(keys := db.keys[id := claim],
        nextKey := if id in db.keys then db.nextKey else db.nextKey + 1,
        events := db.events[c.eventId := Event(claim.workspace, actor, c.kind)],
        audits := db.audits[c.auditId := Audit(claim.workspace, actor, c.kind, c.eventId, c.subject, claim.digest)],
        nextAudit := db.nextAudit + 1,
        outbox := db.outbox[c.outboxId :=
          Outbox(claim.workspace, c.kind, c.subject, c.eventId, c.auditId, claim.digest.value)])
  }

  predicate FreshCitation(db: Db, c: Citation) {
    c.eventId !in db.events && c.auditId == db.nextAudit && c.outboxId !in db.outbox
  }

  lemma CommitKeepsInv(db: Db, id: nat, claim: KeyRow)
    requires Inv(db)
    requires WellFormedRow(claim) && Cites(claim).Some? && FreshCitation(db, Cites(claim).value)
    requires id in db.keys ==> Cites(db.keys[id]).None? && SlotOf(claim) == SlotOf(db.keys[id])
    requires id !in db.keys ==> id == db.nextKey && FreeSlot(db.keys, SlotOf(claim))
    ensures Inv(Commit(db, id, claim))
  {
    var d := Commit(db, id, claim);
    assert UniqueKeys(d) by {
      CommitKeepsUnique(db, id, claim);
    }
    assert ClaimsGrounded(d) by {
      CommitKeepsGrounded(db, id, claim);
    }
    assert ClaimsDisjoint(d) by {
      CommitKeepsDisjoint(db, id, claim);
    }
    assert EffectsClaimed(d) by {
      CommitKeepsClaimed(db, id, claim);
    }
  }

  lemma CommitKeepsUnique(db: Db, id: nat, claim: KeyRow)
    requires UniqueKeys(db)
    requires WellFormedRow(claim) && Cites(claim).Some?
    requires id in db.keys ==> SlotOf(claim) == SlotOf(db.keys[id])
    requires id !in db.keys ==> id == db.nextKey && FreeSlot(db.keys, SlotOf(claim))
    ensures UniqueKeys(Commit(db, id, claim))
  {
    if id in db.keys {
      RewriteKeepsSlots(db.keys, id, claim);
    } else {
      InsertKeepsSlots(db.keys, id, claim);
    }
  }

  lemma CommitKeepsGrounded(db: Db, id: nat, claim: KeyRow)
    requires ClaimsGrounded(db) && forall a | a in db.audits :: a < db.nextAudit
    requires WellFormedRow(claim) && Cites(claim).Some? && FreshCitation(db, Cites(claim).value)
    ensures ClaimsGrounded(Commit(db, id, claim))
  {
    var d := Commit(db, id, claim);
    forall i | i in d.keys ensures WellFormedRow(d.keys[i]) && Grounded(d, d.keys[i]) {
      if i != id {
        assert Grounded(db, db.keys[i]) && d.keys[i] == db.keys[i];
      }
    }
  }

  lemma CommitKeepsDisjoint(db: Db, id: nat, claim: KeyRow)
    requires ClaimsGrounded(db) && ClaimsDisjoint(db) && forall a | a in db.audits :: a < db.nextAudit
    requires WellFormedRow(claim) && Cites(claim).Some? && FreshCitation(db, Cites(claim).value)
    ensures ClaimsDisjoint(Commit(db, id, claim))
  {
    var d := Commit(db, id, claim);
    forall i, j | i in d.keys && j in d.keys && i != j && Cites(d.keys[i]).Some?
      ensures !CitesEvent(d.keys[j], Cites(d.keys[i]).value.eventId)
      ensures !CitesAudit(d.keys[j], Cites(d.keys[i]).value.auditId)
      ensures !CitesOutbox(d.keys[j], Cites(d.keys[i]).value.outboxId)
    {
      if i == id {
        assert Grounded(db, db.keys[j]) && d.keys[j] == db.keys[j];
      } else if j == id {
        assert Grounded(db, db.keys[i]) && d.keys[i] == db.keys[i];
      }
    }
  }

  lemma CommitKeepsClaimed(db: Db, id: nat, claim: KeyRow)
    requires EffectsClaimed(db)
    requires WellFormedRow(claim) && Cites(claim).Some?
    requires id in db.keys ==> Cites(db.keys[id]).None?
    ensures EffectsClaimed(Commit(db, id, claim))
  {
    var d := Commit(db, id, claim);
    var c := Cites(claim).value;
    assert d.keys[id] == claim;
    assert CitesEvent(d.keys[id], c.eventId) && CitesAudit(d.keys[id], c.auditId)
           && CitesOutbox(d.keys[id], c.outboxId);
    forall e | e in d.events && d.events[e].kind != InviteFailed
      ensures EventClaimed(d, e)
    {
      if e != c.eventId {
        assert EventClaimed(db, e);
        var i :| i in db.keys && CitesEvent(db.keys[i], e);
        assert CitesEvent(d.keys[i], e);
      }
    }
    forall a | a in d.audits && d.audits[a].kind != InviteFailed
      ensures AuditClaimed(d, a)
    {
      if a != c.auditId {
        assert AuditClaimed(db, a);
        var i :| i in db.keys && CitesAudit(db.keys[i], a);
        assert CitesAudit(d.keys[i], a);
      }
    }
    forall o | o in d.outbox
      ensures OutboxClaimed(d, o)
    {
      if o != c.outboxId {
        assert OutboxClaimed(db, o);
        var i :| i in db.keys && CitesOutbox(db.keys[i], o);
        assert CitesOutbox(d.keys[i], o);
      }
    }
  }
}
