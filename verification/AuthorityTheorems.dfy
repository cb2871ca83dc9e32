/** What the strict consent and revoke commands guarantee over every run, and when a workspace is unlocked. */
module AuthorityTheorems {
  import opened Wrappers
  import opened Text
  import opened Ledger
  import opened LedgerRuns
  import opened AuthorityStore
  import opened InviteTheorems

  /* ---------------- all or nothing ---------------- */

  /** Every stored consent or revoke claim is complete: it has its status and its body. */
  lemma StoredClaimsAreComplete(db: Db, steps: seq<Step>, i: nat)
    requires Inv(db)
    requires var d := Run(db, steps);
             i in d.keys && d.keys[i].mode == AuthorityStrict && d.keys[i].route != InviteRoute
    ensures Run(db, steps).keys[i].status.Some? && Run(db, steps).keys[i].body.Authority?
  {
    RunKeepsInv(db, steps);
    assert WellFormedRow(Run(db, steps).keys[i]);
  }

  /** Exactly one more claim, event, audit row and outbox row of `kind`; the invitation tables' side is as before. */
  ghost predicate OneMoreEffect(db: Db, d: Db, kind: EventKind) {
    && |ClaimsOf(d, kind)| == |ClaimsOf(db, kind)| + 1
    && |EventsOf(d, kind)| == |EventsOf(db, kind)| + 1
    && |AuditsOf(d, kind)| == |AuditsOf(db, kind)| + 1
    && |OutboxOf(d, kind)| == |OutboxOf(db, kind)| + 1
    && forall i | i in db.keys :: i in d.keys && d.keys[i] == db.keys[i]
  }

  lemma CommitAddsOneEffect(db: Db, claim: KeyRow)
    requires db.nextKey !in db.keys && db.nextAudit !in db.audits
    requires claim.actor.Some? && claim.digest.Some? && Cites(claim).Some? && FreshCitation(db, Cites(claim).value)
    ensures OneMoreEffect(db, Commit(db, db.nextKey, claim), Cites(claim).value.kind)
  {
    CommitAddsOneClaim(db, claim);
    CommitAddsOneRecord(db, claim);
  }

  lemma OneMore<T>(a: set<T>, b: set<T>, x: T)
    requires x !in a && b == a + {x}
    ensures |b| == |a| + 1
  {
  }

  lemma CommitAddsOneClaim(db: Db, claim: KeyRow)
    requires db.nextKey !in db.keys
    requires claim.actor.Some? && claim.digest.Some? && Cites(claim).Some?
    ensures var d := Commit(db, db.nextKey, claim);
            var kind := Cites(claim).value.kind;
            && |ClaimsOf(d, kind)| == |ClaimsOf(db, kind)| + 1
            && forall i | i in db.keys :: i in d.keys && d.keys[i] == db.keys[i]
  {
    var kind := Cites(claim).value.kind;
    var keys := db.keys[db.nextKey := claim];
    assert Commit(db, db.nextKey, claim).keys == keys;
    assert (set i | i in keys && Cites(keys[i]).Some? && Cites(keys[i]).value.kind == kind)
           == ClaimsOf(db, kind) + {db.nextKey};
    OneMore(ClaimsOf(db, kind), ClaimsOf(Commit(db, db.nextKey, claim), kind), db.nextKey);
  }

  lemma CommitAddsOneRecord(db: Db, claim: KeyRow)
    requires db.nextAudit !in db.audits
    requires claim.actor.Some? && claim.digest.Some? && Cites(claim).Some? && FreshCitation(db, Cites(claim).value)
    ensures var d := Commit(db, db.nextKey, claim);
            var kind := Cites(claim).value.kind;
            && |EventsOf(d, kind)| == |EventsOf(db, kind)| + 1
            && |AuditsOf(d, kind)| == |AuditsOf(db, kind)| + 1
            && |OutboxOf(d, kind)| == |OutboxOf(db, kind)| + 1
  {
    var c := Cites(claim).value;
    var d := Commit(db, db.nextKey, claim);
    OneMoreEvent(db, d, c.eventId, d.events[c.eventId]);
    OneMoreAudit(db, d, c.auditId, d.audits[c.auditId]);
    OneMoreOutbox(db, d, c.outboxId, d.outbox[c.outboxId]);
  }

  lemma OneMoreEvent(db: Db, d: Db, id: string, e: Event)
    requires id !in db.events && d.events == db.events[id := e]
    ensures |EventsOf(d, e.kind)| == |EventsOf(db, e.kind)| + 1
  {
    OneMore(EventsOf(db, e.kind), EventsOf(d, e.kind), id);
  }

  lemma OneMoreAudit(db: Db, d: Db, id: nat, a: Audit)
    requires id !in db.audits && d.audits == db.audits[id := a]
    ensures |AuditsOf(d, a.kind)| == |AuditsOf(db, a.kind)| + 1
  {
    OneMore(AuditsOf(db, a.kind), AuditsOf(d, a.kind), id);
  }

  lemma OneMoreOutbox(db: Db, d: Db, id: string, o: Outbox)
    requires id !in db.outbox && d.outbox == db.outbox[id := o]
    ensures |OutboxOf(d, o.kind)| == |OutboxOf(db, o.kind)| + 1
  {
    OneMore(OutboxOf(db, o.kind), OutboxOf(d, o.kind), id);
  }

  /**
   An acknowledgement either writes one of each row together with the workspace's active consent, or
   changes nothing. The active consent keeps an approval it already had.
   */
  lemma AcknowledgeAllOrNothing(db: Db, a: Ack)
    requires Inv(db)
    ensures !AckOutcome(db, a).Committed? ==> Acknowledge(db, a) == db
    ensures AckOutcome(db, a).Committed? ==>
              && OneMoreEffect(db, Acknowledge(db, a), ConsentRecorded)
              && AckedNow(db, Acknowledge(db, a), a, AckOutcome(db, a).receipt)
  {
    if AckOutcome(db, a).Committed? {
      AcknowledgeEffect(db, a);
      AcknowledgeActive(db, a);
    }
  }

  /** The consent side of a committed acknowledgement. */
  ghost predicate AckedNow(db: Db, d: Db, a: Ack, r: AuthorityReceipt) {
    var was := FindActive(db, a.claim.workspace);
    && FindActive(d, a.claim.workspace) == Some(r.consentId)
    && r.consentId in d.consents && d.consents[r.consentId] == r.consent
    && r.consent.workspace == a.claim.workspace
    && r.consent.ackedBy == Some(a.claim.actor) && r.consent.ackedAt == Some(a.at)
    && (if was.Some? then r.consentId == was.value else r.consentId !in db.consents)
    && (if was.Some? && db.consents[was.value].approvedAt.Some? then
          r.consent.approvedAt == db.consents[was.value].approvedAt
        else r.consent.approvedAt == if Approver(a).Some? then Some(a.at) else None)
    && d.consents == db.consents[r.consentId := r.consent]
  }

  function ClaimCommit(db: Db, c: Claim, status: int, r: AuthorityReceipt): Db
    requires Cites(ClaimRow(c, status, r)).Some?
  {
    Commit(db.(consents := db.consents[r.consentId := r.consent]), db.nextKey, ClaimRow(c, status, r))
  }

  lemma AcknowledgeIsCommit(db: Db, a: Ack)
    requires AckOutcome(db, a).Committed?
    ensures var r := AckReceipt(db, a);
            && AckOutcome(db, a).receipt == r && Acknowledge(db, a) == ClaimCommit(db, a.claim, 202, r)
            && r.eventId !in db.events && r.outboxId !in db.outbox && r.auditId == db.nextAudit
            && a.claim.route == ConsentRoute
  {
  }

  lemma AcknowledgeEffect(db: Db, a: Ack)
    requires db.nextKey !in db.keys && db.nextAudit !in db.audits
    requires AckOutcome(db, a).Committed?
    ensures OneMoreEffect(db, Acknowledge(db, a), ConsentRecorded)
  {
    AcknowledgeIsCommit(db, a);
    ClaimAddsOneEffect(db, a.claim, 202, AckReceipt(db, a));
  }

  lemma AcknowledgeActive(db: Db, a: Ack)
    requires OneActive(db) && AckOutcome(db, a).Committed?
    ensures AckedNow(db, Acknowledge(db, a), a, AckOutcome(db, a).receipt)
  {
    var r := AckReceipt(db, a);
    var d := Acknowledge(db, a);
    PutConsentKeepsOneActive(db, d, r.consentId, r.consent);
    FindActiveUnique(d, r.consentId);
  }

  lemma ClaimAddsOneEffect(db: Db, c: Claim, status: int, r: AuthorityReceipt)
    requires db.nextKey !in db.keys && db.nextAudit !in db.audits
    requires r.eventId !in db.events && r.outboxId !in db.outbox && r.auditId == db.nextAudit
    ensures OneMoreEffect(db, ClaimCommit(db, c, status, r),
                          if c.route == ConsentRoute then ConsentRecorded else AuthorityRevoked)
  {
    var mid := db.(consents := db.consents[r.consentId := r.consent]);
    var kind := if c.route == ConsentRoute then ConsentRecorded else AuthorityRevoked;
    CommitAddsOneEffect(mid, ClaimRow(c, status, r));
    SameEffectSets(db, mid, kind);
  }

  lemma SameEffectSets(db: Db, d: Db, kind: EventKind)
    requires d.keys == db.keys && d.events == db.events && d.audits == db.audits && d.outbox == db.outbox
    ensures ClaimsOf(d, kind) == ClaimsOf(db, kind) && EventsOf(d, kind) == EventsOf(db, kind)
    ensures AuditsOf(d, kind) == AuditsOf(db, kind) && OutboxOf(d, kind) == OutboxOf(db, kind)
  {
  }

  /** A revoke either stamps the one active consent and leaves the workspace without any, or changes nothing. */
  lemma WithdrawAllOrNothing(db: Db, w: Withdrawal)
    requires Inv(db)
    ensures !WithdrawalOutcome(db, w).Committed? ==> Withdraw(db, w) == db
    ensures WithdrawalOutcome(db, w) == Refused(NotFound) ==> FindActive(db, w.claim.workspace).None?
    ensures WithdrawalOutcome(db, w).Committed? ==>
              && OneMoreEffect(db, Withdraw(db, w), AuthorityRevoked)
              && RevokedNow(db, Withdraw(db, w), w, WithdrawalOutcome(db, w).receipt)
  {
    if WithdrawalOutcome(db, w).Committed? {
      WithdrawEffect(db, w);
      NoneActiveAfter(db, w);
    }
  }

  /** The consent side of a committed revoke: the stamped row keeps its approval and acknowledgement. */
  ghost predicate RevokedNow(db: Db, d: Db, w: Withdrawal, r: AuthorityReceipt) {
    && FindActive(db, w.claim.workspace) == Some(r.consentId)
    && FindActive(d, w.claim.workspace).None?
    && r.consent.workspace == w.claim.workspace
    && r.consent.revokedBy == Some(w.claim.actor) && r.consent.revokedAt == Some(w.at)
    && r.consent.approvedAt == db.consents[r.consentId].approvedAt
    && r.consent.ackedAt == db.consents[r.consentId].ackedAt
    && d.consents == db.consents[r.consentId := r.consent]
  }

  lemma WithdrawEffect(db: Db, w: Withdrawal)
    requires db.nextKey !in db.keys && db.nextAudit !in db.audits
    requires WithdrawalOutcome(db, w).Committed?
    ensures OneMoreEffect(db, Withdraw(db, w), AuthorityRevoked)
  {
    WithdrawIsCommit(db, w);
    ClaimAddsOneEffect(db, w.claim, 200, WithdrawalReceipt(db, w));
  }

  lemma WithdrawIsCommit(db: Db, w: Withdrawal)
    requires WithdrawalOutcome(db, w).Committed?
    ensures var r := WithdrawalReceipt(db, w);
            && WithdrawalOutcome(db, w).receipt == r && Withdraw(db, w) == ClaimCommit(db, w.claim, 200, r)
            && r.eventId !in db.events && r.outboxId !in db.outbox && r.auditId == db.nextAudit
            && w.claim.route == RevokeRoute
  {
  }

  lemma NoneActiveAfter(db: Db, w: Withdrawal)
    requires OneActive(db) && WithdrawalOutcome(db, w).Committed?
    ensures RevokedNow(db, Withdraw(db, w), w, WithdrawalOutcome(db, w).receipt)
  {
    var r := WithdrawalReceipt(db, w);
    var d := Withdraw(db, w);
    forall c | c in d.consents ensures !ActiveFor(d.consents[c], w.claim.workspace) {
      if c != r.consentId && ActiveFor(db.consents[c], w.claim.workspace) {
        FindActiveUnique(db, c);
      }
    }
  }

  /* ---------------- replay ---------------- */

  /** Same workspace, actor, route and trimmed key. */
  predicate SameSlot(a: Claim, b: Claim) {
    a.workspace == b.workspace && a.actor == b.actor && a.route == b.route && Trim(a.key) == Trim(b.key)
  }

  lemma StoredReplay(db: Db, i: nat, c: Claim, steps: seq<Step>)
    requires Inv(db) && i in db.keys && db.keys[i].body.Authority?
    requires StrictMatch(db.keys[i], c.workspace, c.actor, c.route, Trim(c.key))
    ensures FindClaim(Run(db, steps), c) == Some(i)
    ensures ReadReplay(Run(db, steps), c)
            == if db.keys[i].digest == Some(c.digest) then Ok(db.keys[i].body.authority.(replayed := true))
               else Err(KeyReused)
  {
    assert WellFormedRow(db.keys[i]);
    RunKeepsInv(db, steps);
    CompletedIsFinal(db, steps, i);
    FindStrictUnique(Run(db, steps), i);
  }

  /** What a stored claim answers to its repeats after any run, with other steps before the read-back. */
  lemma StoredAnswer(first: Db, i: nat, c: Claim, status: int, r: AuthorityReceipt, again: Claim,
                     since: seq<Step>, between: seq<Step>)
    requires Inv(first) && i in first.keys && first.keys[i] == ClaimRow(c, status, r) && SameSlot(again, c)
    ensures FindClaim(Run(first, since), again) == Some(i)
    ensures Answer(ClaimTaken, Run(Run(first, since), between), again)
            == if again.digest == c.digest then Ok(r.(replayed := true)) else Err(KeyReused)
  {
    StoredReplay(first, i, again, since);
    StoredReplay(first, i, again, since + between);
    RunAppend(first, since, between);
  }

  /** Some row a repeated acknowledgement would insert is already there under its own key. */
  ghost predicate AckCollides(db: Db, a: Ack) {
    || (FindActive(db, a.claim.workspace).None? && ConsentId(a.nanoid) in db.consents)
    || a.eventId in db.events || a.outboxId in db.outbox
  }

  /**
   Whatever happened since, a repeat of a committed acknowledgement changes nothing; it is answered with
   the first receipt (replayed), or refused when its digest differs, exactly when its fresh ids are fresh.
   */
  lemma RepeatedAcknowledgement(db: Db, a: Ack, since: seq<Step>, again: Ack, between: seq<Step>)
    requires Inv(db) && AckOutcome(db, a).Committed?
    requires SameSlot(again.claim, a.claim) && AckError(again).None?
    ensures var d := Run(Acknowledge(db, a), since);
            var r := AckOutcome(db, a).receipt;
            && Acknowledge(d, again) == d
            && (AckOutcome(d, again) == ClaimTaken <==> !AckCollides(d, again))
            && Answer(ClaimTaken, Run(d, between), again.claim)
               == if again.claim.digest == a.claim.digest then Ok(r.(replayed := true)) else Err(KeyReused)
  {
    var first := Acknowledge(db, a);
    AcknowledgeKeeps(db, a);
    AcknowledgeIsCommit(db, a);
    StoredAnswer(first, db.nextKey, a.claim, 202, AckReceipt(db, a), again.claim, since, between);
    TakenClaimChangesNothing(Run(first, since), again);
  }

  lemma TakenClaimChangesNothing(d: Db, a: Ack)
    requires FindClaim(d, a.claim).Some? && AckError(a).None?
    ensures Acknowledge(d, a) == d && (AckOutcome(d, a) == ClaimTaken <==> !AckCollides(d, a))
  {
  }

  /** The same for revoke: with no active consent left the repeat is still answered, whatever ids it carries. */
  lemma RepeatedWithdrawal(db: Db, w: Withdrawal, since: seq<Step>, again: Withdrawal, between: seq<Step>)
    requires Inv(db) && WithdrawalOutcome(db, w).Committed?
    requires SameSlot(again.claim, w.claim) && WithdrawalError(again).None?
    ensures var d := Run(Withdraw(db, w), since);
            var r := WithdrawalOutcome(db, w).receipt;
            && Withdraw(d, again) == d
            && (WithdrawalOutcome(d, again) == ClaimTaken <==>
                  FindActive(d, w.claim.workspace).None? || (again.eventId !in d.events && again.outboxId !in d.outbox))
            && Answer(ClaimTaken, Run(d, between), again.claim)
               == if again.claim.digest == w.claim.digest then Ok(r.(replayed := true)) else Err(KeyReused)
  {
    var first := Withdraw(db, w);
    WithdrawKeeps(db, w);
    WithdrawIsCommit(db, w);
    StoredAnswer(first, db.nextKey, w.claim, 200, WithdrawalReceipt(db, w), again.claim, since, between);
    TakenRevokeChangesNothing(Run(first, since), again);
  }

  lemma TakenRevokeChangesNothing(d: Db, w: Withdrawal)
    requires FindClaim(d, w.claim).Some? && WithdrawalError(w).None?
    ensures Withdraw(d, w) == d
    ensures WithdrawalOutcome(d, w) == ClaimTaken <==>
              FindActive(d, w.claim.workspace).None? || (w.eventId !in d.events && w.outboxId !in d.outbox)
  {
  }

  /* ---------------- the unlock flag is a function of the history since the last revoke ---------------- */

  datatype Mark = Nothing | Acked | Approved | AckedAndApproved | Revoked

  /** What step `s`, taken in `db`, actually did to `workspace`: replays and refusals did nothing. */
  ghost function MarkOf(db: Db, s: Step, workspace: string): Mark {
    match s
    case OperatorApprove(a) =>
      if a.workspace == workspace && !ApprovalRefused(a) && !ApprovalCollides(db, a) then Approved else Nothing
    case ConsentAck(a) =>
      if a.claim.workspace == workspace && AckOutcome(db, a).Committed? then
        if Approver(a).Some? then AckedAndApproved else Acked
      else Nothing
    case ConsentRevoke(w) =>
      if w.claim.workspace == workspace && WithdrawalOutcome(db, w).Committed? then Revoked else Nothing
    case _ => Nothing
  }

  ghost function History(db: Db, steps: seq<Step>, workspace: string): seq<Mark>
    decreases |steps|
  {
    if steps == [] then [] else [MarkOf(db, steps[0], workspace)] + History(Exec(db, steps[0]), steps[1..], workspace)
  }

  predicate IsAck(m: Mark) { m == Acked || m == AckedAndApproved }

  predicate IsApproval(m: Mark) { m == Approved || m == AckedAndApproved }

  predicate NoRevoke(h: seq<Mark>) { Revoked !in h }

  /** This mark is of the wanted kind and has no revoke after it. */
  ghost predicate StandsAt(h: seq<Mark>, k: nat, wanted: Mark -> bool)
    requires k < |h|
  {
    wanted(h[k]) && NoRevoke(h[k + 1..])
  }

  ghost predicate SinceRevoke(h: seq<Mark>, wanted: Mark -> bool) {
    exists k | 0 <= k < |h| :: StandsAt(h, k, wanted)
  }

  ghost predicate AckedSinceRevoke(h: seq<Mark>) { SinceRevoke(h, IsAck) }

  ghost predicate ApprovedSinceRevoke(h: seq<Mark>) { SinceRevoke(h, IsApproval) }

  /** The two stamps move as the mark of the step says. */
  ghost predicate MovesState(db: Db, d: Db, m: Mark, workspace: string) {
    var before, after := AuthorityState(db, workspace), AuthorityState(d, workspace);
    && after.acked == (m != Revoked && (before.acked || IsAck(m)))
    && after.approved == (m != Revoked && (before.approved || IsApproval(m)))
  }

  predicate TouchesConsents(s: Step) { s.ConsentAck? || s.ConsentRevoke? || s.OperatorApprove? }

  lemma OtherStepsKeepConsents(db: Db, s: Step)
    requires !TouchesConsents(s)
    ensures Exec(db, s).consents == db.consents
  {
  }

  ghost predicate StepMoves(db: Db, s: Step, workspace: string) {
    MovesState(db, Exec(db, s), MarkOf(db, s, workspace), workspace)
  }

  lemma OtherStepOnState(db: Db, s: Step, workspace: string)
    requires OneActive(db) && !TouchesConsents(s)
    ensures StepMoves(db, s, workspace)
  {
    OtherStepsKeepConsents(db, s);
    SameConsents(db, Exec(db, s), workspace);
  }

  lemma StepOnState(db: Db, s: Step, workspace: string)
    requires Inv(db)
    ensures StepMoves(db, s, workspace)
  {
    StepKeepsInv(db, s);
    if s.ConsentAck? {
      AckMovesState(db, s.ack, workspace);
    } else {
      NoAckOnState(db, s, workspace);
    }
  }

  lemma NoAckOnState(db: Db, s: Step, workspace: string)
    requires OneActive(db) && OneActive(Exec(db, s)) && !s.ConsentAck?
    ensures StepMoves(db, s, workspace)
  {
    if s.ConsentRevoke? {
      RevokeMovesState(db, s.withdrawal, workspace);
    } else if s.OperatorApprove? {
      ApprovalMovesState(db, s.approval, workspace);
    } else {
      OtherStepOnState(db, s, workspace);
    }
  }

  lemma AckMovesState(db: Db, a: Ack, workspace: string)
    requires OneActive(db) && OneActive(Acknowledge(db, a))
    ensures StepMoves(db, ConsentAck(a), workspace)
  {
    AckOnState(db, a, workspace);
  }

  lemma RevokeMovesState(db: Db, w: Withdrawal, workspace: string)
    requires OneActive(db) && OneActive(Withdraw(db, w))
    ensures StepMoves(db, ConsentRevoke(w), workspace)
  {
    RevokeOnState(db, w, workspace);
  }

  lemma ApprovalMovesState(db: Db, a: Approval, workspace: string)
    requires OneActive(db) && OneActive(Approve(db, a))
    ensures StepMoves(db, OperatorApprove(a), workspace)
  {
    ApprovalOnState(db, a, workspace);
  }

  lemma SameConsents(db: Db, d: Db, workspace: string)
    requires OneActive(db) && d.consents == db.consents
    ensures AuthorityState(d, workspace) == AuthorityState(db, workspace)
  {
    OtherWorkspaceUntouched(db, d, workspace + "?", workspace);
  }

  lemma AckOnState(db: Db, a: Ack, workspace: string)
    requires OneActive(db) && OneActive(Acknowledge(db, a))
    ensures var m := MarkOf(db, ConsentAck(a), workspace);
            var before := AuthorityState(db, workspace);
            var after := AuthorityState(Acknowledge(db, a), workspace);
            after.acked == (before.acked || IsAck(m)) && after.approved == (before.approved || IsApproval(m))
  {
    if AckOutcome(db, a).Committed? {
      AcknowledgeActive(db, a);
      AckedState(db, Acknowledge(db, a), a, AckOutcome(db, a).receipt, workspace);
    }
  }

  lemma AckedState(db: Db, d: Db, a: Ack, r: AuthorityReceipt, workspace: string)
    requires OneActive(db) && OneActive(d) && AckedNow(db, d, a, r)
    ensures var before := AuthorityState(db, workspace);
            var after := AuthorityState(d, workspace);
            if workspace == a.claim.workspace then
              after.acked && after.approved == (before.approved || Approver(a).Some?)
            else after == before
  {
    OtherWorkspaceUntouched(db, d, a.claim.workspace, workspace);
  }

  lemma RevokeOnState(db: Db, w: Withdrawal, workspace: string)
    requires OneActive(db) && OneActive(Withdraw(db, w))
    ensures var before := AuthorityState(db, workspace);
            var after := AuthorityState(Withdraw(db, w), workspace);
            if MarkOf(db, ConsentRevoke(w), workspace) == Revoked then !after.acked && !after.approved
            else after == before
  {
    if WithdrawalOutcome(db, w).Committed? {
      NoneActiveAfter(db, w);
      RevokedState(db, Withdraw(db, w), w, WithdrawalOutcome(db, w).receipt, workspace);
    }
  }

  lemma RevokedState(db: Db, d: Db, w: Withdrawal, r: AuthorityReceipt, workspace: string)
    requires OneActive(db) && OneActive(d) && RevokedNow(db, d, w, r)
    ensures var after := AuthorityState(d, workspace);
            if workspace == w.claim.workspace then !after.acked && !after.approved
            else after == AuthorityState(db, workspace)
  {
    OtherWorkspaceUntouched(db, d, w.claim.workspace, workspace);
  }

  lemma ApprovalOnState(db: Db, a: Approval, workspace: string)
    requires OneActive(db) && OneActive(Approve(db, a))
    ensures var m := MarkOf(db, OperatorApprove(a), workspace);
            var before := AuthorityState(db, workspace);
            var after := AuthorityState(Approve(db, a), workspace);
            after.acked == before.acked && after.approved == (before.approved || IsApproval(m))
  {
    if !ApprovalRefused(a) && !ApprovalCollides(db, a) {
      var active := FindActive(db, a.workspace);
      FindActiveUnique(Approve(db, a), if active.Some? then active.value else ConsentId(a.nanoid));
      OtherWorkspaceUntouched(db, Approve(db, a), a.workspace, workspace);
    }
  }

  /** If no consent of `other` was added, removed or changed, its active consent is the same. */
  lemma OtherWorkspaceUntouched(db: Db, d: Db, touched: string, other: string)
    requires OneActive(db) && OneActive(d)
    requires forall c | c in db.consents && db.consents[c].workspace != touched ::
             c in d.consents && d.consents[c] == db.consents[c]
    requires forall c | c in d.consents && d.consents[c].workspace != touched ::
             c in db.consents && d.consents[c] == db.consents[c]
    ensures other != touched ==> AuthorityState(d, other) == AuthorityState(db, other)
  {
    if other != touched {
      var f := FindActive(db, other);
      if f.Some? {
        FindActiveUnique(d, f.value);
      } else {
        assert forall c | c in d.consents :: ActiveFor(d.consents[c], other) ==> c in db.consents;
      }
    }
  }

  /**
   From any state without an active consent, a workspace is unlocked exactly when its history since the
   last effective revoke contains both an acknowledgement and an approval, in either order.
   */
  lemma UnlockedExactly(db: Db, steps: seq<Step>, workspace: string)
    requires Inv(db) && FindActive(db, workspace).None?
    ensures var s := AuthorityState(Run(db, steps), workspace);
            var h := History(db, steps, workspace);
            && s.acked == AckedSinceRevoke(h) && s.approved == ApprovedSinceRevoke(h)
            && s.unlocked == (AckedSinceRevoke(h) && ApprovedSinceRevoke(h))
  {
    HistoryDecides(db, steps, workspace);
  }

  lemma {:induction false} HistoryDecides(db: Db, steps: seq<Step>, workspace: string)
    requires Inv(db)
    ensures var s := AuthorityState(Run(db, steps), workspace);
            var before := AuthorityState(db, workspace);
            var h := History(db, steps, workspace);
            && s.acked == (AckedSinceRevoke(h) || (before.acked && NoRevoke(h)))
            && s.approved == (ApprovedSinceRevoke(h) || (before.approved && NoRevoke(h)))
    decreases |steps|
  {
    if steps != [] {
      var d := Exec(db, steps[0]);
      StepKeepsInv(db, steps[0]);
      StepOnState(db, steps[0], workspace);
      HistoryDecides(d, steps[1..], workspace);
      ConsHistory(MarkOf(db, steps[0], workspace), History(d, steps[1..], workspace), IsAck);
      ConsHistory(MarkOf(db, steps[0], workspace), History(d, steps[1..], workspace), IsApproval);
    }
  }

  lemma ConsStandsAt(m: Mark, h: seq<Mark>, wanted: Mark -> bool)
    ensures StandsAt([m] + h, 0, wanted) == (wanted(m) && NoRevoke(h))
    ensures forall k | 0 <= k < |h| :: StandsAt([m] + h, k + 1, wanted) == StandsAt(h, k, wanted)
  {
    var g := [m] + h;
    assert g[0 + 1..] == h;
    forall k | 0 <= k < |h| ensures g[k + 1] == h[k] && g[k + 1 + 1..] == h[k + 1..] {
    }
  }

  lemma ConsHistory(m: Mark, h: seq<Mark>, wanted: Mark -> bool)
    ensures NoRevoke([m] + h) == (m != Revoked && NoRevoke(h))
    ensures SinceRevoke([m] + h, wanted) == (SinceRevoke(h, wanted) || (wanted(m) && NoRevoke(h)))
  {
    ConsStandsAt(m, h, wanted);
    if k :| 0 <= k < |h| && StandsAt(h, k, wanted) {
      assert StandsAt([m] + h, k + 1, wanted);
    }
    if k :| 0 <= k < |[m] + h| && StandsAt([m] + h, k, wanted) {
      assert k > 0 ==> StandsAt(h, k - 1, wanted);
    }
  }
}
