/** The five calls of the paid-pilot ledger as methods that append to its tables. */
module ActionDatabase {
  import opened Wrappers
  import opened Text
  import opened ActionLedger
  import opened ActionTheorems

  class Ledger {
    var actions: map<string, Action>
    var audits: seq<Audit>
    var policies: map<string, Policy>

    ghost function State(): Db
      reads this
    {
      Db(actions, audits, policies)
    }

    ghost predicate Valid()
      reads this
    {
      Inv(State())
    }

    constructor (policies: map<string, Policy>)
      ensures Valid() && State() == Db(map[], [], policies)
    {
      actions, audits, this.policies := map[], [], policies;
    }

    method FindByKey(tenant: string, kind: string, key: string) returns (r: Option<string>)
      requires Valid()
      ensures r == FindKey(State(), tenant, kind, key)
    {
      if i :| i in actions && SameKey(actions[i], tenant, kind, key) {
        StoredKeyIsFound(State(), tenant, kind, key, i);
        r := Some(i);
      } else {
        r := None;
      }
    }

    method EvaluatePolicy(p: Principal, kind: string, requireApproval: bool) returns (r: Result<bool, string>)
      ensures r == Evaluate(State(), p, kind, requireApproval)
    {
      if kind !in ALLOWED {
        return Err("action_not_allowed");
      }
      if p.xlooop.None? || !p.xlooop.value.active {
        return Err("xlooop_entitlement_required");
      }
      var entitlement := p.xlooop.value;
      if OPERATOR !in entitlement.modes {
        return Err("operator_mode_denied");
      }
      if kind !in entitlement.actions {
        return Err("action_not_entitled");
      }
      if kind !in policies || !policies[kind].active {
        return Err("action_policy_missing_or_disabled");
      }
      var policy := policies[kind];
      if policy.permission != "" && policy.permission !in p.permissions {
        return Err("permission_denied");
      }
      r := Ok(policy.approvalRequired && requireApproval);
    }

    /** Inserts unless the id or the key is taken. */
    method InsertAction(id: string, a: Action) returns (inserted: bool)
      requires Valid() && RowKeptRight(a)
      modifies this`actions
      ensures Valid()
      ensures inserted == CanInsert(old(State()), id, a)
      ensures State() == if inserted then Insert(old(State()), id, a) else old(State())
    {
      var clash := None;
      if a.key.Some? {
        clash := FindByKey(a.tenant, a.kind, a.key.value);
      }
      inserted := id !in actions && clash.None?;
      if inserted {
        InsertKeepsInv(State(), id, a);
        actions := actions[id := a];
      }
    }

    method DenyAction(p: Principal, b: Body, reason: string) returns (r: Outcome)
      requires Valid()
      modifies this
      ensures Valid() && State() == Deny(old(State()), p, b, reason) && r == Refused(reason)
    {
      var _ := InsertAction(IdOf(b), DeniedAction(p, b, reason));
      audits := audits + [Audit("action_denied", p.tenant, p.identity, IdOf(b))];
      r := Refused(reason);
    }

    method AppendAction(p: Principal, id: string, a: Action, event: string) returns (r: Outcome)
      requires Valid() && RowKeptRight(a)
      modifies this
      ensures Valid() && (State(), r) == Append(old(State()), p, id, a, event)
    {
      var inserted := InsertAction(id, a);
      if !inserted {
        return Raised;
      }
      audits := audits + [Audit(event, p.tenant, p.identity, id)];
      r := Done(id, a, false);
    }

    method ProposeAction(p: Principal, b: Body) returns (r: Outcome)
      requires Valid()
      modifies this
      ensures Valid() && (State(), r) == Propose(old(State()), p, b)
    {
      if b.kind !in ALLOWED {
        r := DenyAction(p, b, "action_not_allowed");
      } else {
        r := AppendAction(p, IdOf(b), ProposedAction(p, b), "proposal_created");
      }
    }

    method ApproveAction(p: Principal, body: Body) returns (r: Outcome)
      requires Valid()
      modifies this
      ensures Valid() && (State(), r) == Approve(old(State()), p, body)
    {
      var b := body.(kind := Or(body.kind, "proposal.approve"));
      var policy := EvaluatePolicy(p, b.kind, false);
      if policy.Err? {
        r := DenyAction(p, b, policy.error);
      } else {
        r := AppendAction(p, IdOf(b), ApprovedAction(p, b), "action_approved");
      }
    }

    method ExecuteAction(p: Principal, b: Body) returns (r: Outcome)
      requires Valid()
      modifies this
      ensures Valid() && (State(), r) == Execute(old(State()), p, b)
    {
      var policy := EvaluatePolicy(p, b.kind, true);
      if policy.Err? {
        r := DenyAction(p, b, policy.error);
        return;
      }
      if b.key == "" {
        r := DenyAction(p, b, "idempotency_key_required");
        return;
      }
      var existing := FindByKey(p.tenant, b.kind, b.key);
      if existing.Some? {
        return Done(existing.value, actions[existing.value], true);
      }
      if policy.value && b.approval == "" {
        r := DenyAction(p, b, "approval_required");
        return;
      }
      if b.kind == APPLY && (b.verifier == "" || b.rollback == "") {
        r := DenyAction(p, b, "verifier_and_rollback_required");
        return;
      }
      r := AppendAction(p, IdOf(b), ExecutedAction(p, b), "action_executed");
    }

    method RollbackOf(p: Principal, target: string, b: Body) returns (r: Outcome)
      requires Valid()
      modifies this
      ensures Valid() && (State(), r) == Rollback(old(State()), p, target, b)
    {
      if target == "" {
        return Refused("action_id is required");
      }
      if target !in actions || actions[target].tenant != p.tenant {
        audits := audits + [Audit("action_denied", p.tenant, p.identity, target)];
        return NotFound;
      }
      RollbackKindIsNotAllowed(actions[target].kind);
      r := AppendAction(p, b.freshId, RollbackAction(target, actions[target], b), "rollback_created");
    }
  }
}
