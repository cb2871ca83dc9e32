/** What holds of the action ledger over every run. */
module ActionTheorems {
  import opened Wrappers
  import opened Text
  import opened ActionLedger

  lemma RollbackKindIsNotAllowed(kind: string)
    ensures RollbackKind(kind) !in ALLOWED
  {
    var k := RollbackKind(kind);
    assert k[|k| - 1] == 'k';
  }

  lemma InsertKeepsInv(db: Db, id: string, a: Action)
    requires Inv(db) && CanInsert(db, id, a) && RowKeptRight(a)
    ensures Inv(Insert(db, id, a))
  {
    var d := Insert(db, id, a);
    if a.key.Some? {
      assert forall i | i in db.actions :: !SameKey(db.actions[i], a.tenant, a.kind, a.key.value);
    }
    forall i, j | i in d.actions && j in d.actions && d.actions[i].key.Some?
                  && SameKey(d.actions[j], d.actions[i].tenant, d.actions[i].kind, d.actions[i].key.value)
      ensures i == j
    {
    }
  }

  lemma AppendKeepsInv(db: Db, p: Principal, id: string, a: Action, event: string)
    requires Inv(db) && RowKeptRight(a)
    ensures Inv(Append(db, p, id, a, event).0)
  {
    if CanInsert(db, id, a) {
      InsertKeepsInv(db, id, a);
    }
  }

  lemma DenyKeepsInv(db: Db, p: Principal, b: Body, reason: string)
    requires Inv(db)
    ensures Inv(Deny(db, p, b, reason))
  {
    if CanInsert(db, IdOf(b), DeniedAction(p, b, reason)) {
      InsertKeepsInv(db, IdOf(b), DeniedAction(p, b, reason));
    }
  }

  lemma ExecuteKeepsInv(db: Db, p: Principal, b: Body)
    requires Inv(db)
    ensures Inv(Execute(db, p, b).0)
  {
    var policy := Evaluate(db, p, b.kind, true);
    if policy.Err? {
      DenyKeepsInv(db, p, b, policy.error);
    } else if b.key == "" {
      DenyKeepsInv(db, p, b, "idempotency_key_required");
    } else if FindKey(db, p.tenant, b.kind, b.key).None? {
      var refusal := ExecuteRefusal(b, policy.value);
      if refusal.Some? {
        DenyKeepsInv(db, p, b, refusal.value);
      } else {
        AppendKeepsInv(db, p, IdOf(b), ExecutedAction(p, b), "action_executed");
      }
    }
  }

  lemma StepKeepsInv(db: Db, s: Step)
    requires Inv(db)
    ensures Inv(Exec(db, s))
  {
    match s
    case Proposes(p, b) =>
      if b.kind !in ALLOWED { DenyKeepsInv(db, p, b, "action_not_allowed"); }
      else { AppendKeepsInv(db, p, IdOf(b), ProposedAction(p, b), "proposal_created"); }
    case Approves(p, b0) =>
      var b := b0.(kind := Or(b0.kind, "proposal.approve"));
      var policy := Evaluate(db, p, b.kind, false);
      if policy.Err? { DenyKeepsInv(db, p, b, policy.error); }
      else { AppendKeepsInv(db, p, IdOf(b), ApprovedAction(p, b), "action_approved"); }
    case Executes(p, b) => ExecuteKeepsInv(db, p, b);
    case RollsBack(p, t, b) =>
      if t != "" && t in db.actions && db.actions[t].tenant == p.tenant {
        RollbackKindIsNotAllowed(db.actions[t].kind);
        AppendKeepsInv(db, p, b.freshId, RollbackAction(t, db.actions[t], b), "rollback_created");
      }
    case SetsPolicy(_, _) =>
  }

  /**
   Over every run executed rows are unique per tenant, kind and key, apply rows carry verifier and
   rollback references, and a row with a key is never a denied, proposed or approved one.
   */
  lemma {:induction false} RunKeepsInv(db: Db, steps: seq<Step>)
    requires Inv(db)
    ensures Inv(Run(db, steps))
    decreases |steps|
  {
    if steps != [] {
      StepKeepsInv(db, steps[0]);
      RunKeepsInv(Exec(db, steps[0]), steps[1..]);
    }
  }

  /** In every run from an empty ledger an executed row is the only one of its tenant, kind and key. */
  lemma ExecutedRowsAreUnique(policies: map<string, Policy>, steps: seq<Step>, i: string, j: string)
    requires var d := Run(Db(map[], [], policies), steps);
             i in d.actions && j in d.actions && d.actions[i].status == Executed
             && d.actions[j].tenant == d.actions[i].tenant && d.actions[j].kind == d.actions[i].kind
             && d.actions[j].key == d.actions[i].key
    ensures i == j
    ensures var a := Run(Db(map[], [], policies), steps).actions[i];
            a.kind == APPLY ==> a.verifier != "" && a.rollback != ""
  {
    RunKeepsInv(Db(map[], [], policies), steps);
    var d := Run(Db(map[], [], policies), steps);
    assert RowKeptRight(d.actions[i]);
    assert SameKey(d.actions[j], d.actions[i].tenant, d.actions[i].kind, d.actions[i].key.value);
  }

  /* ---------------- the ledger only grows ---------------- */

  ghost predicate Grows(a: Db, b: Db) {
    && (forall i | i in a.actions :: i in b.actions && b.actions[i] == a.actions[i])
    && |a.audits| <= |b.audits| && b.audits[..|a.audits|] == a.audits
  }

  lemma AppendGrows(db: Db, p: Principal, id: string, a: Action, event: string)
    ensures Grows(db, Append(db, p, id, a, event).0)
  {
  }

  lemma DenyGrows(db: Db, p: Principal, b: Body, reason: string)
    ensures Grows(db, Deny(db, p, b, reason))
  {
  }

  lemma ExecuteGrows(db: Db, p: Principal, b: Body)
    ensures Grows(db, Execute(db, p, b).0)
  {
    var policy := Evaluate(db, p, b.kind, true);
    var refusal := if policy.Err? then Some(policy.error)
                   else if b.key == "" then Some("idempotency_key_required") else ExecuteRefusal(b, policy.value);
    if refusal.Some? {
      DenyGrows(db, p, b, refusal.value);
    }
    AppendGrows(db, p, IdOf(b), ExecutedAction(p, b), "action_executed");
  }

  lemma StepGrows(db: Db, s: Step)
    ensures Grows(db, Exec(db, s))
  {
    match s
    case Proposes(p, b) =>
      DenyGrows(db, p, b, "action_not_allowed");
      AppendGrows(db, p, IdOf(b), ProposedAction(p, b), "proposal_created");
    case Approves(p, b0) =>
      var b := b0.(kind := Or(b0.kind, "proposal.approve"));
      var policy := Evaluate(db, p, b.kind, false);
      if policy.Err? { DenyGrows(db, p, b, policy.error); }
      AppendGrows(db, p, IdOf(b), ApprovedAction(p, b), "action_approved");
    case Executes(p, b) => ExecuteGrows(db, p, b);
    case RollsBack(p, t, b) =>
      if t in db.actions { AppendGrows(db, p, b.freshId, RollbackAction(t, db.actions[t], b), "rollback_created"); }
    case SetsPolicy(_, _) =>
  }

  /** No action row and no audit row is ever altered or removed. */
  lemma {:induction false} RunGrows(db: Db, steps: seq<Step>)
    ensures Grows(db, Run(db, steps))
    decreases |steps|
  {
    if steps != [] {
      StepGrows(db, steps[0]);
      RunGrows(Exec(db, steps[0]), steps[1..]);
      var d, e := Exec(db, steps[0]), Run(db, steps);
      assert e.audits[..|db.audits|] == d.audits[..|db.audits|];
    }
  }

  /* ---------------- what passing the policy means ---------------- */

  /** The caller holds an active entitlement that names operator mode and this kind. */
  predicate Entitled(p: Principal, kind: string) {
    p.xlooop.Some? && p.xlooop.value.active && OPERATOR in p.xlooop.value.modes && kind in p.xlooop.value.actions
  }

  /** The kind has an active policy whose permission, if it names one, the caller holds. */
  predicate Permitted(db: Db, p: Principal, kind: string) {
    kind in db.policies && db.policies[kind].active
    && (db.policies[kind].permission == "" || db.policies[kind].permission in p.permissions)
  }

  /**
   The policy passes exactly the known kinds that the caller is entitled to and permitted, and then asks
   for an approval exactly when the caller of the check wants one and the kind's policy does.
   */
  lemma PolicyPassesExactly(db: Db, p: Principal, kind: string, requireApproval: bool)
    ensures var r := Evaluate(db, p, kind, requireApproval);
            && (r.Ok? <==> kind in ALLOWED && Entitled(p, kind) && Permitted(db, p, kind))
            && (r.Ok? ==> (r.value <==> requireApproval && db.policies[kind].approvalRequired))
  {
  }

  /** Disabling a kind's policy refuses it to everyone, in every later state until a policy is set again. */
  lemma {:induction false} DisabledKindStaysRefused(db: Db, steps: seq<Step>, kind: string, p: Principal, b: Body)
    requires kind in db.policies && !db.policies[kind].active && b.kind == kind
    requires forall k | 0 <= k < |steps| :: !(steps[k].SetsPolicy? && steps[k].kind == kind)
    ensures Execute(Run(db, steps), p, b).1.Refused? && (kind != "" ==> Approve(Run(db, steps), p, b).1.Refused?)
    decreases |steps|
  {
    if steps != [] {
      var d := Exec(db, steps[0]);
      StepKeepsPolicy(db, steps[0], kind);
      DisabledKindStaysRefused(d, steps[1..], kind, p, b);
    }
  }

  lemma StepKeepsPolicy(db: Db, s: Step, kind: string)
    requires kind in db.policies && !(s.SetsPolicy? && s.kind == kind)
    ensures kind in Exec(db, s).policies && Exec(db, s).policies[kind] == db.policies[kind]
  {
  }

  /**
   An execution goes through exactly when the policy passes it, it brings a key, and either the key was
   executed before or the approval and references it needs are there and nothing clashes.
   */
  lemma ExecuteGoesThroughExactly(db: Db, p: Principal, b: Body)
    requires Inv(db)
    ensures Execute(db, p, b).1.Done? <==>
            && b.kind in ALLOWED && Entitled(p, b.kind) && Permitted(db, p, b.kind) && b.key != ""
            && (|| KeyTaken(db, p.tenant, b.kind, b.key)
                || (&& (db.policies[b.kind].approvalRequired ==> b.approval != "")
                    && (b.kind == APPLY ==> b.verifier != "" && b.rollback != "")
                    && IdOf(b) !in db.actions))
  {
    PolicyPassesExactly(db, p, b.kind, true);
  }

  /* ---------------- every executed row passed the policy ---------------- */

  /** The call was allowed, with its approval if one was required, in the state it met. */
  ghost predicate Passed(before: Db, s: Step, a: Action) {
    && s.Executes? && a == ExecutedAction(s.principal, s.body) && s.body.key != ""
    && var policy := Evaluate(before, s.principal, s.body.kind, true);
       policy.Ok? && (policy.value ==> a.approval != "") && (a.kind == APPLY ==> a.verifier != "" && a.rollback != "")
  }

  ghost predicate PassedInRun(db: Db, steps: seq<Step>, a: Action) {
    exists k | 0 <= k < |steps| :: Passed(Run(db, steps[..k]), steps[k], a)
  }

  lemma OtherCallsExecuteNothing(db: Db, s: Step, id: string)
    requires !s.Executes? && id !in db.actions && id in Exec(db, s).actions
    ensures Exec(db, s).actions[id].status != Executed
  {
  }

  lemma ExecutionPassed(db: Db, p: Principal, b: Body, id: string)
    requires id !in db.actions && id in Execute(db, p, b).0.actions
    requires Execute(db, p, b).0.actions[id].status == Executed
    ensures Passed(db, Executes(p, b), Execute(db, p, b).0.actions[id])
  {
  }

  lemma NewExecutedPassed(db: Db, s: Step, id: string)
    requires id !in db.actions && id in Exec(db, s).actions && Exec(db, s).actions[id].status == Executed
    ensures Passed(db, s, Exec(db, s).actions[id])
  {
    if s.Executes? {
      ExecutionPassed(db, s.principal, s.body, id);
    } else {
      OtherCallsExecuteNothing(db, s, id);
    }
  }

  lemma ShiftPassed(db: Db, steps: seq<Step>, a: Action)
    requires steps != [] && PassedInRun(Exec(db, steps[0]), steps[1..], a)
    ensures PassedInRun(db, steps, a)
  {
    var d, rest := Exec(db, steps[0]), steps[1..];
    var k :| 0 <= k < |rest| && Passed(Run(d, rest[..k]), rest[k], a);
    assert steps[..k + 1][1..] == rest[..k];
    assert Passed(Run(db, steps[..k + 1]), steps[k + 1], a);
  }

  /** Whatever happened in a run, each of its executed rows was let through by the policy of its moment. */
  lemma {:induction false} ExecutedRowsPassedThePolicy(db: Db, steps: seq<Step>, id: string)
    requires id !in db.actions && id in Run(db, steps).actions && Run(db, steps).actions[id].status == Executed
    ensures PassedInRun(db, steps, Run(db, steps).actions[id])
    decreases |steps|
  {
    var d := Exec(db, steps[0]);
    if id in d.actions {
      RunGrows(d, steps[1..]);
      NewExecutedPassed(db, steps[0], id);
      assert steps[..0] == [];
      assert Passed(Run(db, steps[..0]), steps[0], d.actions[id]);
    } else {
      ExecutedRowsPassedThePolicy(d, steps[1..], id);
      ShiftPassed(db, steps, Run(db, steps).actions[id]);
    }
  }

  /* ---------------- replays ---------------- */

  lemma StoredKeyIsFound(db: Db, tenant: string, kind: string, key: string, id: string)
    requires UniqueKeys(db) && id in db.actions && SameKey(db.actions[id], tenant, kind, key)
    ensures FindKey(db, tenant, kind, key) == Some(id)
  {
    assert KeyTaken(db, tenant, kind, key);
  }

  /** A replay is always an executed row of the caller's tenant under the same kind and key. */
  lemma ReplayIsAnExecution(db: Db, p: Principal, b: Body)
    requires Inv(db) && Execute(db, p, b).1.Done? && Execute(db, p, b).1.replayed
    ensures var r := Execute(db, p, b).1;
            && Execute(db, p, b).0 == db && r.id in db.actions && db.actions[r.id] == r.action
            && r.action.status == Executed && SameKey(r.action, p.tenant, b.kind, b.key)
  {
    var r := Execute(db, p, b).1;
    assert RowKeptRight(db.actions[r.id]);
  }

  /**
   After an execution, any later call of the tenant with the same kind and key, by anyone, after
   anything: if the policy lets it through it gets that very row and writes nothing, else it is denied.
   */
  lemma ExecutedOnceForAll(db: Db, p: Principal, b: Body, steps: seq<Step>, q: Principal, c: Body)
    requires Inv(db) && Execute(db, p, b).1.Done?
    requires q.tenant == p.tenant && c.kind == b.kind && c.key == b.key
    ensures var (d, r) := Execute(db, p, b);
            var e := Run(d, steps);
            var policy := Evaluate(e, q, c.kind, true);
            Execute(e, q, c) == if policy.Ok? then (e, Done(r.id, r.action, true))
                                else (Deny(e, q, c, policy.error), Refused(policy.error))
  {
    var (d, r) := Execute(db, p, b);
    ExecuteKeepsInv(db, p, b);
    RunKeepsInv(d, steps);
    RunGrows(d, steps);
    StoredKeyIsFound(Run(d, steps), q.tenant, c.kind, c.key, r.id);
  }

  /* ---------------- rollback ---------------- */

  /** Exactly when an own action can be rolled back: always without a key, once with one. */
  lemma RollbackExactly(db: Db, p: Principal, target: string, b: Body)
    requires target != "" && target in db.actions && db.actions[target].tenant == p.tenant && b.freshId !in db.actions
    ensures var a := db.actions[target];
            Rollback(db, p, target, b).1.Done?
            <==> a.key.None? || !KeyTaken(db, a.tenant, RollbackKind(a.kind), a.key.value)
  {
  }

  /** A second rollback of an executed action fails in every later state. */
  lemma RolledBackOnce(db: Db, p: Principal, target: string, b: Body, steps: seq<Step>, q: Principal, c: Body)
    requires target in db.actions && db.actions[target].key.Some? && Rollback(db, p, target, b).1.Done?
             && q.tenant == p.tenant
    ensures var e := Run(Rollback(db, p, target, b).0, steps);
            Rollback(e, q, target, c) == (e, Raised)
  {
    var d, a := Rollback(db, p, target, b).0, db.actions[target];
    var e := Run(d, steps);
    RunGrows(d, steps);
    assert SameKey(d.actions[b.freshId], a.tenant, RollbackKind(a.kind), a.key.value);
    assert SameKey(e.actions[b.freshId], a.tenant, RollbackKind(a.kind), a.key.value);
    assert KeyTaken(e, a.tenant, RollbackKind(a.kind), a.key.value);
  }

  /** A rollback leaves the execution itself in place: the key still replays it. */
  lemma RollbackKeepsTheReplay(db: Db, p: Principal, b: Body, t: Body)
    requires Inv(db) && Execute(db, p, b).1.Done? && Execute(db, p, b).1.id != ""
    ensures var (d, r) := Execute(db, p, b);
            var e := Rollback(d, p, r.id, t).0;
            Evaluate(e, p, b.kind, true).Ok? && Execute(e, p, b) == (e, Done(r.id, r.action, true))
  {
    var (d, r) := Execute(db, p, b);
    var s := RollsBack(p, r.id, t);
    ExecutedOnceForAll(db, p, b, [s], p, b);
    assert Run(d, [s]) == Run(Exec(d, s), []);
  }
}
