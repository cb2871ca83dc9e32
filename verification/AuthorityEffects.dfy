/**
 When the consent commands commit, what they write and what the unlock flag then says, in terms of rows
 and columns alone.
 */
module AuthorityEffects {
  import opened Wrappers
  import opened Text
  import opened Ledger
  import opened LedgerRuns
  import opened AuthorityStore
  import opened AuthorityTheorems
  import L = LedgerDatabase

  /* ---------------- rows, column by column ---------------- */

  predicate UnRevoked(db: Db, id: string, workspace: string) {
    id in db.consents && db.consents[id].workspace == workspace && db.consents[id].revokedAt.None?
  }

  ghost predicate HasActive(db: Db, workspace: string) { exists id :: UnRevoked(db, id, workspace) }

  /** A row of the strict namespace with this claim's workspace, actor, route and trimmed key. */
  predicate ClaimStored(db: Db, i: nat, c: Claim) {
    && i in db.keys && db.keys[i].mode == AuthorityStrict && db.keys[i].workspace == c.workspace
    && db.keys[i].actor == Some(c.actor) && db.keys[i].route == c.route && db.keys[i].key == Trim(c.key)
  }

  ghost predicate KeyUsed(db: Db, c: Claim) { exists i :: ClaimStored(db, i, c) }

  predicate ValidClaim(c: Claim) {
    && c.workspace != "" && Trim(c.workspace) != "" && c.actor != "" && Trim(c.key) != "" && |c.key| <= 200
    && IsDigest(c.digest)
  }

  lemma ActiveIsFound(db: Db, workspace: string)
    requires OneActive(db)
    ensures FindActive(db, workspace).Some? <==> HasActive(db, workspace)
    ensures forall id | UnRevoked(db, id, workspace) :: FindActive(db, workspace) == Some(id)
  {
    forall id | UnRevoked(db, id, workspace) ensures FindActive(db, workspace) == Some(id) {
      assert ActiveFor(db.consents[id], workspace);
      FindActiveUnique(db, id);
    }
    if FindActive(db, workspace).Some? {
      assert UnRevoked(db, FindActive(db, workspace).value, workspace);
    }
  }

  lemma ClaimIsFound(db: Db, c: Claim)
    requires UniqueSlots(db.keys)
    ensures FindClaim(db, c).Some? <==> KeyUsed(db, c)
  {
    if FindClaim(db, c).Some? {
      assert ClaimStored(db, FindClaim(db, c).value, c);
    }
    if i :| ClaimStored(db, i, c) {
      assert StrictMatch(db.keys[i], c.workspace, c.actor, c.route, Trim(c.key));
    }
  }

  /* ---------------- acknowledgement ---------------- */

  predicate ValidAck(a: Ack) {
    ValidClaim(a.claim) && a.claim.route == ConsentRoute && Trim(a.fullName) != "" && a.eventId != ""
      && a.outboxId != ""
  }

  /** The consent that an acknowledgement must end on: the active one, else a new one under its own id. */
  predicate EndsOn(db: Db, workspace: string, own: string, id: string) {
    UnRevoked(db, id, workspace) || (id == own && id !in db.consents)
  }

  /**
   An acknowledgement commits exactly when it is valid, its key is unused, its event and outbox ids are
   free, and the workspace has an active consent or its own consent id is free.
   */
  lemma AckCommitsExactly(db: Db, a: Ack)
    requires Inv(db)
    ensures AckOutcome(db, a).Committed? <==>
              && ValidAck(a) && !KeyUsed(db, a.claim) && a.eventId !in db.events && a.outboxId !in db.outbox
              && (HasActive(db, a.claim.workspace) || "auth_" + a.nanoid !in db.consents)
    ensures AckOutcome(db, a) == ClaimTaken <==>
              && ValidAck(a) && KeyUsed(db, a.claim) && a.eventId !in db.events && a.outboxId !in db.outbox
              && (HasActive(db, a.claim.workspace) || "auth_" + a.nanoid !in db.consents)
    ensures AckOutcome(db, a) == Collided <==>
              && ValidAck(a)
              && (|| a.eventId in db.events || a.outboxId in db.outbox
                  || (!HasActive(db, a.claim.workspace) && "auth_" + a.nanoid in db.consents))
  {
    ActiveIsFound(db, a.claim.workspace);
    ClaimIsFound(db, a.claim);
  }

  /** The stamps after an acknowledgement: its own, and an approval that was there or came with it. */
  predicate AckedConsentRow(before: Option<Consent>, c: Consent, a: Ack) {
    && c.workspace == a.claim.workspace && c.revokedAt.None?
    && c.revokedBy == (if before.Some? then before.value.revokedBy else None)
    && c.revokedReason == (if before.Some? then before.value.revokedReason else None)
    && c.ackedAt == Some(a.at) && c.ackedBy == Some(a.claim.actor) && c.fullName == Some(Trim(a.fullName))
    && c.version == (if a.version == "" then "authority_v1" else a.version) && c.updatedAt == a.at
    && (a.accessRequest.Some? ==> c.accessRequest == a.accessRequest)
    && (a.accessRequest.None? ==> c.accessRequest == if before.Some? then before.value.accessRequest else None)
    && (before.Some? && before.value.approvedAt.Some? ==> c.approvedAt == before.value.approvedAt)
    && (before.Some? && before.value.approvedBy.Some? ==> c.approvedBy == before.value.approvedBy)
    && (before.None? || before.value.approvedAt.None? ==>
          c.approvedAt == if a.autoApprover != "" then Some(a.at) else None)
    && (before.None? || before.value.approvedBy.None? ==>
          c.approvedBy == if a.autoApprover != "" then Some(a.autoApprover) else None)
  }

  /** One claim, event, audit row and outbox row that name each other, and one consent written; nothing else. */
  ghost predicate StrictCommit(db: Db, d: Db, c: Claim, status: int, kind: EventKind, r: AuthorityReceipt) {
    && r.auditId == db.nextAudit && !r.replayed
    && d == db.(
         keys := db.keys[db.nextKey :=
           KeyRow(c.workspace, Trim(c.key), c.route, Some(c.actor), Some(c.digest), AuthorityStrict, Some(status),
                  Authority(r))],
         nextKey := db.nextKey + 1,
         events := db.events[r.eventId := Event(c.workspace, c.actor, kind)],
         audits := db.audits[db.nextAudit := Audit(c.workspace, c.actor, kind, r.eventId, r.consentId, Some(c.digest))],
         nextAudit := db.nextAudit + 1,
         outbox := db.outbox[r.outboxId := Outbox(c.workspace, kind, r.consentId, r.eventId, db.nextAudit, c.digest)],
         consents := db.consents[r.consentId := r.consent])
  }

  /** What a committed acknowledgement answers and writes. */
  lemma AckWrites(db: Db, a: Ack)
    requires Inv(db) && AckOutcome(db, a).Committed?
    ensures var r := AckOutcome(db, a).receipt;
            && EndsOn(db, a.claim.workspace, "auth_" + a.nanoid, r.consentId)
            && (HasActive(db, a.claim.workspace) ==> UnRevoked(db, r.consentId, a.claim.workspace))
            && AckedConsentRow(if r.consentId in db.consents then Some(db.consents[r.consentId])
                               else None, r.consent, a)
            && r.eventId == a.eventId && r.outboxId == a.outboxId && r.watermark == a.at
            && StrictCommit(db, Acknowledge(db, a), a.claim, 202, ConsentRecorded, r)
  {
    ActiveIsFound(db, a.claim.workspace);
    AckCommitsExactly(db, a);
  }

  /** Any other outcome leaves all tables alone. */
  lemma UncommittedAckWritesNothing(db: Db, a: Ack)
    requires Inv(db)
    ensures Acknowledge(db, a) != db <==> AckOutcome(db, a).Committed?
  {
    if AckOutcome(db, a).Committed? {
      AckWrites(db, a);
      AckCommitsExactly(db, a);
      assert a.eventId in Acknowledge(db, a).events;
    }
  }

  /* ---------------- revoke ---------------- */

  predicate ValidWithdrawal(w: Withdrawal) {
    ValidClaim(w.claim) && w.claim.route == RevokeRoute && w.eventId != "" && w.outboxId != ""
  }

  /**
   A revoke commits exactly when it is valid, the workspace has an active consent, the key is unused and
   both row ids are free; without an active consent it is a replay when the key is used and else not found.
   */
  lemma WithdrawalCommitsExactly(db: Db, w: Withdrawal)
    requires Inv(db)
    ensures var active, free := HasActive(db, w.claim.workspace), w.eventId !in db.events && w.outboxId !in db.outbox;
            var o := WithdrawalOutcome(db, w);
            && (o.Committed? <==> ValidWithdrawal(w) && active && free && !KeyUsed(db, w.claim))
            && (o == ClaimTaken <==> ValidWithdrawal(w) && (active ==> free) && KeyUsed(db, w.claim))
            && (o == Collided <==> ValidWithdrawal(w) && active && !free)
            && (o == Refused(NotFound) <==> ValidWithdrawal(w) && !active && !KeyUsed(db, w.claim))
  {
    ActiveIsFound(db, w.claim.workspace);
    ClaimIsFound(db, w.claim);
  }

  /** What a committed revoke answers and writes: the active consent, stamped and otherwise as it was. */
  lemma WithdrawalWrites(db: Db, w: Withdrawal)
    requires Inv(db) && WithdrawalOutcome(db, w).Committed?
    ensures var r := WithdrawalOutcome(db, w).receipt;
            && UnRevoked(db, r.consentId, w.claim.workspace)
            && r.consent.revokedAt == Some(w.at) && r.consent.revokedBy == Some(w.claim.actor)
            && r.consent.revokedReason == (if Trim(w.reason) == "" then None else Some(Trim(w.reason)))
            && r.consent == db.consents[r.consentId].(
                 revokedAt := r.consent.revokedAt, revokedBy := r.consent.revokedBy,
                 revokedReason := r.consent.revokedReason, updatedAt := w.at)
            && r.eventId == w.eventId && r.outboxId == w.outboxId && r.watermark == w.at
            && StrictCommit(db, Withdraw(db, w), w.claim, 200, AuthorityRevoked, r)
  {
    ActiveIsFound(db, w.claim.workspace);
  }

  /* ---------------- approval and the unlock flag ---------------- */

  /**
   An approval takes effect exactly when workspace and operator are named and the workspace has an active
   consent or the new id is free; it stamps that one consent and changes nothing else.
   */
  lemma ApprovalExactly(db: Db, a: Approval)
    requires Inv(db)
    ensures var d := Approve(db, a);
            var works := Trim(a.workspace) != "" && a.operator != ""
                         && (HasActive(db, a.workspace) || "auth_" + a.nanoid !in db.consents);
            && (!works ==> d == db)
            && (works ==> exists id :: EndsOn(db, a.workspace, "auth_" + a.nanoid, id) && ApprovedAs(db, d, id, a))
  {
    ActiveIsFound(db, a.workspace);
    TrimOfEmpty();
    if Trim(a.workspace) != "" && a.operator != ""
       && (HasActive(db, a.workspace) || "auth_" + a.nanoid !in db.consents)
    {
      var active := FindActive(db, a.workspace);
      var id := if active.Some? then active.value else "auth_" + a.nanoid;
      assert EndsOn(db, a.workspace, "auth_" + a.nanoid, id);
      assert ApprovedAs(db, Approve(db, a), id, a);
    }
  }

  lemma TrimOfEmpty()
    ensures Trim("") == ""
  {
  }

  ghost predicate ApprovedAs(db: Db, d: Db, id: string, a: Approval) {
    && id in d.consents && UnRevoked(d, id, a.workspace)
    && d == db.(consents := db.consents[id := d.consents[id]])
    && d.consents[id].approvedAt == Some(db.now) && d.consents[id].approvedBy == Some(a.operator)
    && d.consents[id].updatedAt == db.now
    && (a.accessRequest.Some? ==> d.consents[id].accessRequest == a.accessRequest)
    && (id in db.consents ==>
          d.consents[id] == db.consents[id].(
            approvedAt := Some(db.now), approvedBy := Some(a.operator), updatedAt := db.now,
            accessRequest := d.consents[id].accessRequest)
          && (a.accessRequest.None? ==> d.consents[id].accessRequest == db.consents[id].accessRequest))
    && (id !in db.consents ==>
          d.consents[id].ackedAt.None? && d.consents[id].ackedBy.None? && d.consents[id].fullName.None?
          && d.consents[id].version == "authority_v1" && d.consents[id].accessRequest == a.accessRequest)
  }

  /** The flags, read off the rows. */
  lemma StateByRows(db: Db, workspace: string)
    requires Inv(db)
    ensures var s := AuthorityState(db, workspace);
            && (s.acked <==> exists id :: UnRevoked(db, id, workspace) && db.consents[id].ackedAt.Some?)
            && (s.approved <==> exists id :: UnRevoked(db, id, workspace) && db.consents[id].approvedAt.Some?)
            && (s.unlocked <==> s.acked && s.approved)
  {
    ActiveIsFound(db, workspace);
  }

  lemma RowStates(db: Db, id: string, workspace: string)
    requires Inv(db) && UnRevoked(db, id, workspace)
    ensures var s, c := AuthorityState(db, workspace), db.consents[id];
            s.acked == c.ackedAt.Some? && s.approved == c.approvedAt.Some?
              && s.unlocked == (c.ackedAt.Some? && c.approvedAt.Some?)
  {
    ActiveIsFound(db, workspace);
  }

  /** The ordinary order: an operator approves, then the customer acknowledges under fresh ids. */
  lemma ApprovalThenAckUnlocks(db: Db, p: Approval, a: Ack)
    requires Inv(db) && Trim(p.workspace) != "" && p.operator != "" && p.workspace == a.claim.workspace
    requires HasActive(db, p.workspace) || "auth_" + p.nanoid !in db.consents
    requires ValidAck(a) && !KeyUsed(db, a.claim) && a.eventId !in db.events && a.outboxId !in db.outbox
    ensures var d := Approve(db, p);
            AckOutcome(d, a).Committed? && AuthorityState(Acknowledge(d, a), p.workspace).unlocked
  {
    var d := Approve(db, p);
    ApprovalExactly(db, p);
    ApproveKeeps(db, p);
    var id :| EndsOn(db, p.workspace, "auth_" + p.nanoid, id) && ApprovedAs(db, d, id, p);
    assert UnRevoked(d, id, p.workspace);
    assert forall i :: ClaimStored(d, i, a.claim) ==> ClaimStored(db, i, a.claim);
    AckCommitsExactly(d, a);
    AckLeavesState(d, a, id);
  }

  lemma AckLeavesState(d: Db, a: Ack, id: string)
    requires Inv(d) && AckOutcome(d, a).Committed? && UnRevoked(d, id, a.claim.workspace)
    ensures var s := AuthorityState(Acknowledge(d, a), a.claim.workspace);
            s.acked && (d.consents[id].approvedAt.Some? ==> s.unlocked)
  {
    AckWrites(d, a);
    AcknowledgeKeeps(d, a);
    ActiveIsFound(d, a.claim.workspace);
    var r := AckOutcome(d, a).receipt;
    assert r.consentId == id;
    RowStates(Acknowledge(d, a), id, a.claim.workspace);
  }

  /** And the other order. */
  lemma AckThenApprovalUnlocks(db: Db, a: Ack, p: Approval)
    requires Inv(db) && AckOutcome(db, a).Committed? && p.workspace == a.claim.workspace && p.operator != ""
    ensures AuthorityState(Approve(Acknowledge(db, a), p), p.workspace).unlocked
  {
    var d := Acknowledge(db, a);
    AckWrites(db, a);
    AcknowledgeKeeps(db, a);
    AckCommitsExactly(db, a);
    var id := AckOutcome(db, a).receipt.consentId;
    assert UnRevoked(d, id, p.workspace);
    ApprovalExactly(d, p);
    ApproveKeeps(d, p);
    ActiveIsFound(d, p.workspace);
    var j :| EndsOn(d, p.workspace, "auth_" + p.nanoid, j) && ApprovedAs(d, Approve(d, p), j, p);
    ApprovalEndsOnActive(d, p, id);
    RowStates(Approve(d, p), id, p.workspace);
  }

  lemma ApprovalEndsOnActive(d: Db, p: Approval, id: string)
    requires Inv(d) && UnRevoked(d, id, p.workspace) && Trim(p.workspace) != "" && p.operator != ""
    ensures var e := Approve(d, p);
            UnRevoked(e, id, p.workspace) && e.consents[id].approvedAt.Some?
              && e.consents[id].ackedAt == d.consents[id].ackedAt
  {
    ActiveIsFound(d, p.workspace);
    TrimOfEmpty();
  }

  /* ---------------- the whole calls ---------------- */

  /** The first complaint about a claim: no workspace, no key of at most 200 characters, no digest, other route. */
  lemma RefusalsInOrder(a: Ack)
    ensures AckError(a).None? <==> ValidAck(a)
    ensures AckError(a) == Some(KeyRequired) <==>
              && a.claim.actor != "" && Trim(a.fullName) != "" && a.eventId != "" && a.outboxId != ""
              && Trim(a.claim.workspace) != "" && (Trim(a.claim.key) == "" || |a.claim.key| > 200)
    ensures AckError(a) == Some(Unauthorized) <==>
              && a.claim.workspace != "" && Trim(a.claim.workspace) == "" && a.claim.actor != ""
                 && Trim(a.fullName) != ""
              && a.eventId != "" && a.outboxId != ""
    ensures AckError(a).Some? ==> AckError(a).value in {Unauthorized, KeyRequired, Validation}
  {
    TrimOfEmpty();
  }

  /** What an acknowledgement call answers, and the tables it leaves, by what is stored. */
  lemma AckCallAnswers(db: Db, a: Ack, gap: seq<Step>)
    requires Inv(db) && ValidAck(a)
    ensures var (d, r) := L.Acknowledged(db, a, gap);
            var free := a.eventId !in db.events && a.outboxId !in db.outbox
                        && (HasActive(db, a.claim.workspace) || "auth_" + a.nanoid !in db.consents);
            && (!free ==> d == db && r == Err(DuplicateRow))
            && (free && !KeyUsed(db, a.claim) ==>
                  r.Ok? && !r.value.replayed && StrictCommit(db, d, a.claim, 202, ConsentRecorded, r.value)
                  && r.value.consent.ackedAt == Some(a.at))
            && (free && KeyUsed(db, a.claim) ==> d == Run(db, gap) && StoredClaimAnswers(d, a.claim, r))
  {
    AckCommitsExactly(db, a);
    if AckOutcome(db, a).Committed? {
      AckWrites(db, a);
    }
    if KeyUsed(db, a.claim) && AckOutcome(db, a).ClaimTaken? {
      UsedKeyAnswers(db, a.claim, gap);
    }
  }

  /** The same for a revoke call. */
  lemma WithdrawalCallAnswers(db: Db, w: Withdrawal, gap: seq<Step>)
    requires Inv(db) && ValidWithdrawal(w)
    ensures var (d, r) := L.Withdrawn(db, w, gap);
            var active, free := HasActive(db, w.claim.workspace), w.eventId !in db.events && w.outboxId !in db.outbox;
            && (active && !free ==> d == db && r == Err(DuplicateRow))
            && (active && free && !KeyUsed(db, w.claim) ==>
                  r.Ok? && !r.value.replayed && StrictCommit(db, d, w.claim, 200, AuthorityRevoked, r.value)
                  && r.value.consent.revokedAt == Some(w.at))
            && (!active && !KeyUsed(db, w.claim) ==> d == db && r == Err(NotFound))
            && ((active ==> free) && KeyUsed(db, w.claim) ==> d == Run(db, gap) && StoredClaimAnswers(d, w.claim, r))
  {
    WithdrawalCommitsExactly(db, w);
    if WithdrawalOutcome(db, w).Committed? {
      WithdrawalWrites(db, w);
    }
    if KeyUsed(db, w.claim) && WithdrawalOutcome(db, w).ClaimTaken? {
      UsedKeyAnswers(db, w.claim, gap);
    }
  }

  /** A stored claim answers its receipt as a replay, and refuses another digest. */
  ghost predicate StoredClaimAnswers(d: Db, c: Claim, r: Result<AuthorityReceipt, Error>) {
    exists i :: ClaimStored(d, i, c)
      && (d.keys[i].digest != Some(c.digest) ==> r == Err(KeyReused))
      && (d.keys[i].digest == Some(c.digest) && d.keys[i].body.Authority? ==>
            && r.Ok? && r.value.replayed
            && r.value == d.keys[i].body.authority.(replayed := true))
  }

  lemma UsedKeyAnswers(db: Db, c: Claim, gap: seq<Step>)
    requires Inv(db) && KeyUsed(db, c)
    ensures StoredClaimAnswers(Run(db, gap), c, ReadReplay(Run(db, gap), c))
  {
    var i :| ClaimStored(db, i, c);
    RunOnRow(db, gap, i);
    RunKeepsInv(db, gap);
    var d := Run(db, gap);
    assert ClaimStored(d, i, c);
    assert WellFormedRow(d.keys[i]) && StrictMatch(d.keys[i], c.workspace, c.actor, c.route, Trim(c.key));
    FindStrictUnique(d, i);
  }

  /** A step of a run does what the call made of it does when nobody else is there. */
  lemma AuthorityStepsAreCalls(db: Db, a: Ack, w: Withdrawal, p: Approval)
    requires Inv(db)
    ensures Run(db, [ConsentAck(a)]) == L.Acknowledged(db, a, []).0
    ensures Run(db, [ConsentRevoke(w)]) == L.Withdrawn(db, w, []).0
    ensures Run(db, [OperatorApprove(p)]) == Approve(db, p)
  {
    assert [ConsentAck(a)][1..] == [] && Run(db, [ConsentAck(a)]) == Run(Exec(db, ConsentAck(a)), []);
    assert [ConsentRevoke(w)][1..] == [] && Run(db, [ConsentRevoke(w)]) == Run(Exec(db, ConsentRevoke(w)), []);
    assert [OperatorApprove(p)][1..] == [] && Run(db, [OperatorApprove(p)]) == Run(Exec(db, OperatorApprove(p)), []);
  }
}
