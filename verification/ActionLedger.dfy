/**
 The paid-pilot action ledger: propose, approve, execute, roll back and deny each append a row. Texts
 arrive redacted and trimmed; one that is missing is empty.
 */
module ActionLedger {
  import opened Wrappers
  import opened Text

  const APPLY := "document.markdown.writeback.apply"

  const ALLOWED := {
    "feedback.resolve", "proposal.approve", "proposal.reject", "telemetry.company.aggregate.read",
    "document.markdown.writeback.request", APPLY}

  datatype Entitlement = Entitlement(active: bool, modes: set<string>, actions: set<string>)

  /** Who calls: membership tenant, permissions, and the entitlement for the xlooop app if there is one. */
  datatype Principal = Principal(tenant: string, identity: string, xlooop: Option<Entitlement>,
                                 permissions: set<string>)

  datatype Policy = Policy(active: bool, permission: string, approvalRequired: bool)

  datatype Status = Proposed | Approved | Denied | Executed | RolledBack

  datatype Action = Action(
    tenant: string, identity: string, kind: string, mode: string, decision: string, status: Status,
    key: Option<string>, proposal: string, approval: string, receipt: string, verifier: string, rollback: string)

  datatype Audit = Audit(event: string, tenant: string, identity: string, action: string)

  datatype Db = Db(actions: map<string, Action>, audits: seq<Audit>, policies: map<string, Policy>)

  /** A request body; `fresh` fields are the ids the worker would make. */
  datatype Body = Body(
    kind: string, newId: string, key: string, proposal: string, approval: string, receipt: string, verifier: string,
    rollback: string, mode: string, freshId: string, freshProposal: string, freshApproval: string, freshReceipt: string)

  datatype Outcome =
    | Done(id: string, action: Action, replayed: bool)
    | Refused(reason: string)
    | NotFound
    | Raised

  /* ---------------- policy ---------------- */

  const OPERATOR := "operator"

  /** The reason for refusal, or whether an approval id is required. */
  function Evaluate(db: Db, p: Principal, kind: string, requireApproval: bool): Result<bool, string> {
    if kind !in ALLOWED then Err("action_not_allowed")
    else if p.xlooop.None? || !p.xlooop.value.active then Err("xlooop_entitlement_required")
    else if OPERATOR !in p.xlooop.value.modes then Err("operator_mode_denied")
    else if kind !in p.xlooop.value.actions then Err("action_not_entitled")
    else if kind !in db.policies || !db.policies[kind].active then Err("action_policy_missing_or_disabled")
    else if db.policies[kind].permission != "" && db.policies[kind].permission !in p.permissions then
      Err("permission_denied")
    else Ok(db.policies[kind].approvalRequired && requireApproval)
  }

  /* ---------------- rows ---------------- */

  predicate SameKey(a: Action, tenant: string, kind: string, key: string) {
    a.tenant == tenant && a.kind == kind && a.key == Some(key)
  }

  ghost predicate KeyTaken(db: Db, tenant: string, kind: string, key: string) {
    exists i :: i in db.actions && SameKey(db.actions[i], tenant, kind, key)
  }

  /** The primary key and the unique triple; rows without a key never clash. */
  ghost predicate CanInsert(db: Db, id: string, a: Action) {
    id !in db.actions && (a.key.Some? ==> !KeyTaken(db, a.tenant, a.kind, a.key.value))
  }

  function Insert(db: Db, id: string, a: Action): Db { db.(actions := db.actions[id := a]) }

  function Log(db: Db, event: string, p: Principal, action: string): Db {
    db.(audits := db.audits + [Audit(event, p.tenant, p.identity, action)])
  }

  function IdOf(b: Body): string { Or(b.newId, b.freshId) }

  function BaseAction(p: Principal, b: Body, kind: string, mode: string, decision: string, status: Status): Action {
    Action(p.tenant, p.identity, kind, mode, decision, status, None, b.proposal, b.approval, b.receipt, b.verifier,
           b.rollback)
  }

  ghost function FindKey(db: Db, tenant: string, kind: string, key: string): (r: Option<string>)
    ensures r.Some? ==> r.value in db.actions && SameKey(db.actions[r.value], tenant, kind, key)
    ensures r.None? ==> !KeyTaken(db, tenant, kind, key)
  {
    if i :| i in db.actions && SameKey(db.actions[i], tenant, kind, key) then Some(i) else None
  }

  /* ---------------- the five calls ---------------- */

  function DeniedAction(p: Principal, b: Body, reason: string): Action {
    BaseAction(p, b, Or(b.kind, "unknown"), Or(b.mode, OPERATOR), reason, Denied)
  }

  /** A denied row that clashes with a stored id is dropped; the audit row is written in any case. */
  ghost function Deny(db: Db, p: Principal, b: Body, reason: string): Db {
    var a := DeniedAction(p, b, reason);
    Log(if CanInsert(db, IdOf(b), a) then Insert(db, IdOf(b), a) else db, "action_denied", p, IdOf(b))
  }

  function ProposedAction(p: Principal, b: Body): Action {
    BaseAction(p, b, b.kind, Or(b.mode, "test"), "proposal_created", Proposed).(
      proposal := Or(b.proposal, b.freshProposal))
  }

  ghost function Propose(db: Db, p: Principal, b: Body): (Db, Outcome) {
    if b.kind !in ALLOWED then (Deny(db, p, b, "action_not_allowed"), Refused("action_not_allowed"))
    else Append(db, p, IdOf(b), ProposedAction(p, b), "proposal_created")
  }

  /** Insert and audit; a clash raises and leaves both tables alone. */
  ghost function Append(db: Db, p: Principal, id: string, a: Action, event: string): (Db, Outcome) {
    if CanInsert(db, id, a) then (Log(Insert(db, id, a), event, p, id), Done(id, a, false)) else (db, Raised)
  }

  function ApprovedAction(p: Principal, b: Body): Action {
    BaseAction(p, b, b.kind, OPERATOR, "approved", Approved).(
      approval := Or(b.approval, b.freshApproval), receipt := Or(b.receipt, b.freshReceipt))
  }

  ghost function Approve(db: Db, p: Principal, b0: Body): (Db, Outcome) {
    var b := b0.(kind := Or(b0.kind, "proposal.approve"));
    var policy := Evaluate(db, p, b.kind, false);
    if policy.Err? then (Deny(db, p, b, policy.error), Refused(policy.error))
    else Append(db, p, IdOf(b), ApprovedAction(p, b), "action_approved")
  }

  function ExecutedAction(p: Principal, b: Body): Action {
    BaseAction(p, b, b.kind, OPERATOR, "executed", Executed).(
      key := Some(b.key), receipt := Or(b.receipt, b.freshReceipt))
  }

  predicate LacksReferences(b: Body) { b.kind == APPLY && (b.verifier == "" || b.rollback == "") }

  /** Why an execution that finds no earlier one is refused. */
  function ExecuteRefusal(b: Body, approvalRequired: bool): Option<string> {
    if approvalRequired && b.approval == "" then Some("approval_required")
    else if LacksReferences(b) then Some("verifier_and_rollback_required")
    else None
  }

  ghost function Execute(db: Db, p: Principal, b: Body): (Db, Outcome) {
    var policy := Evaluate(db, p, b.kind, true);
    if policy.Err? then (Deny(db, p, b, policy.error), Refused(policy.error))
    else if b.key == "" then (Deny(db, p, b, "idempotency_key_required"), Refused("idempotency_key_required"))
    else
      var f := FindKey(db, p.tenant, b.kind, b.key);
      var refusal := ExecuteRefusal(b, policy.value);
      if f.Some? then (db, Done(f.value, db.actions[f.value], true))
      else if refusal.Some? then (Deny(db, p, b, refusal.value), Refused(refusal.value))
      else Append(db, p, IdOf(b), ExecutedAction(p, b), "action_executed")
  }

  function RollbackKind(kind: string): string { kind + ".rollback" }

  /** A copy of the target, its key included, under the rollback kind. */
  function RollbackAction(target: string, a: Action, b: Body): Action {
    a.(kind := RollbackKind(a.kind), decision := "rolled_back", status := RolledBack,
       rollback := Or(b.rollback, "rollback:" + target), receipt := Or(b.receipt, b.freshReceipt))
  }

  ghost function Rollback(db: Db, p: Principal, target: string, b: Body): (Db, Outcome) {
    if target == "" then (db, Refused("action_id is required"))
    else if target !in db.actions || db.actions[target].tenant != p.tenant then
      (Log(db, "action_denied", p, target), NotFound)
    else Append(db, p, b.freshId, RollbackAction(target, db.actions[target], b), "rollback_created")
  }

  /* ---------------- runs ---------------- */

  datatype Step =
    | Proposes(principal: Principal, body: Body)
    | Approves(principal: Principal, body: Body)
    | Executes(principal: Principal, body: Body)
    | RollsBack(principal: Principal, target: string, body: Body)
    | SetsPolicy(kind: string, policy: Policy)

  ghost function Exec(db: Db, s: Step): Db {
    match s
    case Proposes(p, b) => Propose(db, p, b).0
    case Approves(p, b) => Approve(db, p, b).0
    case Executes(p, b) => Execute(db, p, b).0
    case RollsBack(p, t, b) => Rollback(db, p, t, b).0
    case SetsPolicy(kind, policy) => db.(policies := db.policies[kind := policy])
  }

  ghost function Run(db: Db, steps: seq<Step>): Db
    decreases |steps|
  {
    if steps == [] then db else Run(Exec(db, steps[0]), steps[1..])
  }

  /** A row with a key is an execution of an allowed kind or a rollback of some other kind. */
  predicate RowKeptRight(a: Action) {
    && (a.status == Executed ==> a.key.Some? && a.kind in ALLOWED)
    && (a.key.Some? ==> a.status == Executed || (a.status == RolledBack && a.kind !in ALLOWED))
    && (a.status == Executed && a.kind == APPLY ==> a.verifier != "" && a.rollback != "")
  }

  ghost predicate UniqueKeys(db: Db) {
    forall i, j | i in db.actions && j in db.actions && db.actions[i].key.Some?
                  && SameKey(db.actions[j], db.actions[i].tenant, db.actions[i].kind, db.actions[i].key.value) :: i == j
  }

  ghost predicate Inv(db: Db) {
    UniqueKeys(db) && forall i | i in db.actions :: RowKeptRight(db.actions[i])
  }
}
