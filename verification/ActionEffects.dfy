/** When the five calls of the paid-pilot ledger go through, and the columns of the rows they append. */
module ActionEffects {
  import opened Wrappers
  import opened Text
  import opened ActionLedger
  import opened ActionTheorems

  /** The row's id is the one asked for, else the one made for it. */
  predicate NamedBy(id: string, b: Body) { id == if b.newId != "" then b.newId else b.freshId }

  /** What every row takes over from the caller and the body. */
  predicate CarriesBody(a: Action, p: Principal, b: Body) {
    && a.tenant == p.tenant && a.identity == p.identity
    && (b.proposal != "" ==> a.proposal == b.proposal) && (b.approval != "" ==> a.approval == b.approval)
    && (b.receipt != "" ==> a.receipt == b.receipt) && a.verifier == b.verifier && a.rollback == b.rollback
  }

  /** One action row and one audit row are appended, and nothing else. */
  predicate Appended(db: Db, d: Db, p: Principal, id: string, a: Action, event: string) {
    && id !in db.actions
    && d == Db(db.actions[id := a], db.audits + [Audit(event, p.tenant, p.identity, id)], db.policies)
  }

  /** A refusal appends a denied row with its reason, unless the id is taken, and an audit row in any case. */
  predicate DeniedWith(db: Db, d: Db, p: Principal, b: Body, reason: string) {
    var id := if b.newId != "" then b.newId else b.freshId;
    && d.audits == db.audits + [Audit("action_denied", p.tenant, p.identity, id)] && d.policies == db.policies
    && (id in db.actions ==> d.actions == db.actions)
    && (id !in db.actions ==>
          && id in d.actions && d.actions == db.actions[id := d.actions[id]]
          && CarriesBody(d.actions[id], p, b) && d.actions[id].status == Denied && d.actions[id].decision == reason
          && d.actions[id].key.None? && d.actions[id].kind == (if b.kind != "" then b.kind else "unknown")
          && d.actions[id].mode == (if b.mode != "" then b.mode else "operator")
          && d.actions[id].proposal == b.proposal && d.actions[id].approval == b.approval
             && d.actions[id].receipt == b.receipt)
  }

  lemma DenyExactly(db: Db, p: Principal, b: Body, reason: string)
    ensures DeniedWith(db, Deny(db, p, b, reason), p, b, reason)
  {
  }

  /** A proposal goes through exactly for a known kind under a free id; no policy is asked. */
  lemma ProposeExactly(db: Db, p: Principal, b: Body)
    ensures var (d, r) := Propose(db, p, b);
            && (b.kind !in ALLOWED
                ==> r == Refused("action_not_allowed") && DeniedWith(db, d, p, b, "action_not_allowed"))
            && (b.kind in ALLOWED ==> (r.Done? <==> exists id :: NamedBy(id, b) && id !in db.actions))
            && (r.Done? ==>
                  && NamedBy(r.id, b) && !r.replayed && Appended(db, d, p, r.id, r.action, "proposal_created")
                  && CarriesBody(r.action, p, b) && r.action.kind == b.kind && r.action.status == Proposed
                  && r.action.mode == (if b.mode != "" then b.mode else "test")
                     && r.action.decision == "proposal_created"
                  && r.action.proposal == (if b.proposal != "" then b.proposal else b.freshProposal)
                  && r.action.key.None? && r.action.approval == b.approval && r.action.receipt == b.receipt)
            && (b.kind in ALLOWED && !r.Done? ==> r == Raised && d == db)
  {
    DenyExactly(db, p, b, "action_not_allowed");
    assert NamedBy(IdOf(b), b);
  }

  /** An approval goes through exactly when the policy passes its kind and its id is free. */
  lemma ApproveExactly(db: Db, p: Principal, b: Body)
    ensures var (d, r) := Approve(db, p, b);
            var kind := if b.kind != "" then b.kind else "proposal.approve";
            var passes := kind in ALLOWED && Entitled(p, kind) && Permitted(db, p, kind);
            && (r.Done? <==> passes && exists id :: NamedBy(id, b) && id !in db.actions)
            && (r.Done? ==>
                  && NamedBy(r.id, b) && !r.replayed && Appended(db, d, p, r.id, r.action, "action_approved")
                  && CarriesBody(r.action, p, b) && r.action.kind == kind && r.action.status == Approved
                  && r.action.mode == "operator" && r.action.decision == "approved" && r.action.key.None?
                  && r.action.approval == (if b.approval != "" then b.approval else b.freshApproval)
                  && r.action.receipt == (if b.receipt != "" then b.receipt else b.freshReceipt)
                  && r.action.proposal == b.proposal)
            && (!passes ==> r.Refused? && DeniedWith(db, d, p, b.(kind := kind), r.reason))
            && (passes && !r.Done? ==> r == Raised && d == db)
  {
    var c := b.(kind := Or(b.kind, "proposal.approve"));
    PolicyPassesExactly(db, p, c.kind, false);
    forall reason ensures DeniedWith(db, Deny(db, p, c, reason), p, c, reason) {
      DenyExactly(db, p, c, reason);
    }
    assert NamedBy(IdOf(b), b);
  }

  /** The reasons for refusal, in the order in which they are looked for. */
  lemma ReasonsInOrder(db: Db, p: Principal, kind: string)
    ensures var r := Evaluate(db, p, kind, true);
            && (r == Err("action_not_allowed") <==> kind !in ALLOWED)
            && (r == Err("xlooop_entitlement_required")
                <==> kind in ALLOWED && (p.xlooop.None? || !p.xlooop.value.active))
            && (r == Err("operator_mode_denied") <==>
                  kind in ALLOWED && p.xlooop.Some? && p.xlooop.value.active && "operator" !in p.xlooop.value.modes)
            && (r == Err("action_not_entitled") <==>
                  kind in ALLOWED && p.xlooop.Some? && p.xlooop.value.active && "operator" in p.xlooop.value.modes
                  && kind !in p.xlooop.value.actions)
            && (r == Err("action_policy_missing_or_disabled") <==>
                  kind in ALLOWED && Entitled(p, kind) && (kind !in db.policies || !db.policies[kind].active))
            && (r == Err("permission_denied") <==>
                  kind in ALLOWED && Entitled(p, kind) && kind in db.policies && db.policies[kind].active
                  && db.policies[kind].permission != "" && db.policies[kind].permission !in p.permissions)
  {
  }

  predicate SameTriple(a: Action, p: Principal, b: Body) {
    a.tenant == p.tenant && a.kind == b.kind && a.key == Some(b.key)
  }

  ghost predicate ExecutedBefore(db: Db, p: Principal, b: Body) {
    exists i :: i in db.actions && SameTriple(db.actions[i], p, b)
  }

  predicate Passes(db: Db, p: Principal, b: Body) {
    b.kind in ALLOWED && Entitled(p, b.kind) && Permitted(db, p, b.kind)
  }

  predicate ApprovedAndReferenced(db: Db, b: Body) {
    && (b.kind in db.policies && db.policies[b.kind].approvalRequired ==> b.approval != "")
    && (b.kind == "document.markdown.writeback.apply" ==> b.verifier != "" && b.rollback != "")
  }

  lemma BeforeIsFound(db: Db, p: Principal, b: Body)
    ensures FindKey(db, p.tenant, b.kind, b.key).Some? <==> ExecutedBefore(db, p, b)
  {
    var f := FindKey(db, p.tenant, b.kind, b.key);
    if f.Some? {
      assert SameTriple(db.actions[f.value], p, b);
    }
    if i :| i in db.actions && SameTriple(db.actions[i], p, b) {
      assert SameKey(db.actions[i], p.tenant, b.kind, b.key);
    }
  }

  /** An execution that the policy stops, or without a key, is denied with that reason. */
  lemma StoppedExecution(db: Db, p: Principal, b: Body)
    requires !Passes(db, p, b) || b.key == ""
    ensures var (d, r) := Execute(db, p, b);
            && r.Refused? && DeniedWith(db, d, p, b, r.reason)
            && (Passes(db, p, b) ==> r.reason == "idempotency_key_required")
            && (!Passes(db, p, b) ==> Evaluate(db, p, b.kind, true) == Err(r.reason))
  {
    PolicyPassesExactly(db, p, b.kind, true);
    DenyExactly(db, p, b, Execute(db, p, b).1.reason);
  }

  /** One whose key was executed before gets that row, and nothing is written. */
  lemma RepeatedExecution(db: Db, p: Principal, b: Body)
    requires Passes(db, p, b) && b.key != "" && ExecutedBefore(db, p, b)
    ensures var (d, r) := Execute(db, p, b);
            && d == db && r.Done? && r.replayed && r.id in db.actions && db.actions[r.id] == r.action
            && SameTriple(r.action, p, b)
  {
    PolicyPassesExactly(db, p, b.kind, true);
    BeforeIsFound(db, p, b);
  }

  /** A first one is denied without a needed approval or reference, and else appends its own row if its id is free. */
  lemma FirstExecution(db: Db, p: Principal, b: Body)
    requires Passes(db, p, b) && b.key != "" && !ExecutedBefore(db, p, b)
    ensures var (d, r) := Execute(db, p, b);
            && (!ApprovedAndReferenced(db, b) ==>
                  && r.Refused? && DeniedWith(db, d, p, b, r.reason)
                  && r.reason == (if db.policies[b.kind].approvalRequired && b.approval == "" then "approval_required"
                                  else "verifier_and_rollback_required"))
            && (ApprovedAndReferenced(db, b) ==>
                  && (r.Done? <==> exists id :: NamedBy(id, b) && id !in db.actions)
                  && (!r.Done? ==> r == Raised && d == db)
                  && (r.Done? ==> !r.replayed && ExecutedAs(db, d, p, b, r.id, r.action)))
  {
    PolicyPassesExactly(db, p, b.kind, true);
    BeforeIsFound(db, p, b);
    FreshKeyIsNotTaken(db, p, b);
    assert NamedBy(IdOf(b), b);
    if !ApprovedAndReferenced(db, b) {
      DenyExactly(db, p, b, Execute(db, p, b).1.reason);
    }
  }

  lemma FreshKeyIsNotTaken(db: Db, p: Principal, b: Body)
    requires !ExecutedBefore(db, p, b)
    ensures !KeyTaken(db, p.tenant, b.kind, b.key)
  {
    if i :| i in db.actions && SameKey(db.actions[i], p.tenant, b.kind, b.key) {
      assert SameTriple(db.actions[i], p, b);
    }
  }

  predicate ExecutedAs(db: Db, d: Db, p: Principal, b: Body, id: string, a: Action) {
    && NamedBy(id, b) && Appended(db, d, p, id, a, "action_executed")
    && CarriesBody(a, p, b) && SameTriple(a, p, b) && a.status == Executed && a.mode == "operator"
       && a.decision == "executed"
    && a.receipt == (if b.receipt != "" then b.receipt else b.freshReceipt)
    && a.proposal == b.proposal && a.approval == b.approval
  }

  /** A rollback copies its target but for kind, decision, status, reference and receipt. */
  lemma RollbackWrites(db: Db, p: Principal, target: string, b: Body)
    ensures var (d, r) := Rollback(db, p, target, b);
            var own := target != "" && target in db.actions && db.actions[target].tenant == p.tenant;
            && (target == "" ==> r == Refused("action_id is required") && d == db)
            && (target != "" && !own ==>
                  r == NotFound && d == db.(audits := db.audits
                                            + [Audit("action_denied", p.tenant, p.identity, target)]))
            && (own && r.Done? ==>
                  && r.id == b.freshId && !r.replayed && Appended(db, d, p, r.id, r.action, "rollback_created")
                  && r.action == db.actions[target].(
                       kind := db.actions[target].kind + ".rollback", decision := "rolled_back", status := RolledBack,
                       rollback := if b.rollback != "" then b.rollback else "rollback:" + target,
                       receipt := if b.receipt != "" then b.receipt else b.freshReceipt))
            && (own && !r.Done? ==> r == Raised && d == db)
  {
  }

  /** A step of a run does what the call made of it does. */
  lemma ProposeStepIsItsCall(db: Db, p: Principal, b: Body)
    ensures Run(db, [Proposes(p, b)]) == Propose(db, p, b).0
  {
    OneStep(db, Proposes(p, b));
  }

  lemma ApproveStepIsItsCall(db: Db, p: Principal, b: Body)
    ensures Run(db, [Approves(p, b)]) == Approve(db, p, b).0
  {
    OneStep(db, Approves(p, b));
  }

  lemma ExecuteStepIsItsCall(db: Db, p: Principal, b: Body)
    ensures Run(db, [Executes(p, b)]) == Execute(db, p, b).0
  {
    OneStep(db, Executes(p, b));
  }

  lemma RollbackStepIsItsCall(db: Db, p: Principal, target: string, b: Body)
    ensures Run(db, [RollsBack(p, target, b)]) == Rollback(db, p, target, b).0
  {
    OneStep(db, RollsBack(p, target, b));
  }

  lemma PolicyStep(db: Db, kind: string, policy: Policy)
    ensures Run(db, [SetsPolicy(kind, policy)]) == Db(db.actions, db.audits, db.policies[kind := policy])
  {
    OneStep(db, SetsPolicy(kind, policy));
  }

  lemma OneStep(db: Db, s: Step)
    ensures Run(db, [s]) == Exec(db, s)
  {
    assert [s][1..] == [] && Run(db, [s]) == Run(Exec(db, s), []);
  }
}
