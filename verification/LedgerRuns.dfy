/**
 The key table under any number of workers: every statement of the three protocols is one
 atomic step, steps come in any order with any arguments, and the database clock only moves forward.
 */
module LedgerRuns {
  import opened Wrappers
  import opened Ledger
  import I = InviteStore
  import A = AuthorityStore
  import G = RetryGuard

  datatype Step =
    | Tick(elapsed: nat)
    | InviteInsert(command: I.Command, leaseUntil: nat)
    | InviteReclaim(id: nat, token: string, reclaimUntil: nat)
    | InviteFinalize(delivery: I.Delivery)
    | InviteFail(failure: I.Failure)
    | OperatorApprove(approval: A.Approval)
    | ConsentAck(ack: A.Ack)
    | ConsentRevoke(withdrawal: A.Withdrawal)
    | GuardClaim(workspace: string, key: string, route: Route)
    | GuardComplete(workspace: string, key: string, status: int, body: string)
    | GuardRelease(workspace: string, key: string)

  predicate IsGuardStep(s: Step) { s.GuardClaim? || s.GuardComplete? || s.GuardRelease? }

  ghost function Exec(db: Db, s: Step): Db {
    match s
    case Tick(dt) => db.(now := db.now + dt)
    case InviteInsert(c, until) => I.InsertPending(db, c, until)
    case InviteReclaim(id, token, until) => I.Reclaim(db, id, token, until)
    case InviteFinalize(f) => I.Finalize(db, f)
    case InviteFail(f) => I.RecordFailure(db, f)
    case OperatorApprove(a) => A.Approve(db, a)
    case ConsentAck(a) => A.Acknowledge(db, a)
    case ConsentRevoke(w) => A.Withdraw(db, w)
    case GuardClaim(ws, key, route) => G.Claim(db, ws, key, route)
    case GuardComplete(ws, key, status, body) => G.Complete(db, ws, key, status, body)
    case GuardRelease(ws, key) => G.Release(db, ws, key)
  }

  ghost function Run(db: Db, steps: seq<Step>): Db
    decreases |steps|
  {
    if steps == [] then db else Run(Exec(db, steps[0]), steps[1..])
  }

  lemma TickKeeps(db: Db, dt: nat)
    requires Inv(db)
    ensures Inv(db.(now := db.now + dt))
  {
    var d := db.(now := db.now + dt);
    assert ClaimsGrounded(d) by {
      forall i | i in d.keys ensures WellFormedRow(d.keys[i]) && Grounded(d, d.keys[i]) {
        assert Grounded(db, db.keys[i]);
      }
    }
    CarryCitations(db, d);
  }

  lemma StepKeepsInv(db: Db, s: Step)
    requires Inv(db)
    ensures Inv(Exec(db, s))
  {
    match s
    case Tick(dt) => TickKeeps(db, dt);
    case InviteInsert(c, until) => I.InsertPendingKeeps(db, c, until);
    case InviteReclaim(id, token, until) => I.ReclaimKeeps(db, id, token, until);
    case InviteFinalize(f) => I.FinalizeKeeps(db, f);
    case InviteFail(f) => I.RecordFailureKeeps(db, f);
    case OperatorApprove(a) => A.ApproveKeeps(db, a);
    case ConsentAck(a) => A.AcknowledgeKeeps(db, a);
    case ConsentRevoke(w) => A.WithdrawKeeps(db, w);
    case GuardClaim(ws, key, route) => G.ClaimKeeps(db, ws, key, route);
    case GuardComplete(ws, key, status, body) => G.CompleteKeeps(db, ws, key, status, body);
    case GuardRelease(ws, key) => G.ReleaseKeeps(db, ws, key);
  }

  /** Every reachable state satisfies the invariant, at most one active consent per workspace included. */
  lemma {:induction false} RunKeepsInv(db: Db, steps: seq<Step>)
    requires Inv(db)
    ensures Inv(Run(db, steps))
    decreases |steps|
  {
    if steps != [] {
      StepKeepsInv(db, steps[0]);
      RunKeepsInv(Exec(db, steps[0]), steps[1..]);
    }
  }

  /** In every state reached from the empty tables a workspace has at most one un-revoked consent. */
  lemma OneActiveConsent(steps: seq<Step>, a: string, b: string)
    requires var d := Run(EMPTY, steps);
             a in d.consents && b in d.consents && d.consents[a].revokedAt.None? && d.consents[b].revokedAt.None?
             && d.consents[a].workspace == d.consents[b].workspace
    ensures a == b
  {
    EmptyInv();
    RunKeepsInv(EMPTY, steps);
    var d := Run(EMPTY, steps);
    assert ActiveFor(d.consents[a], d.consents[a].workspace) && ActiveFor(d.consents[b], d.consents[a].workspace);
  }

  lemma EmptyInv()
    ensures Inv(EMPTY)
  {
  }

  lemma {:induction false} RunAppend(db: Db, a: seq<Step>, b: seq<Step>)
    ensures Run(db, a + b) == Run(Run(db, a), b)
    decreases |a|
  {
    if a == [] {
      assert a + b == b;
    } else {
      assert (a + b)[1..] == a[1..] + b;
      RunAppend(Exec(db, a[0]), a[1..], b);
    }
  }

  /* ---------------- what may become of one row ---------------- */

  lemma StepOnRow(db: Db, s: Step, i: nat)
    requires Inv(db) && i in db.keys
    ensures db.keys[i].mode == AuthorityStrict || db.keys[i].status.Some? ==> i in Exec(db, s).keys
    ensures i in Exec(db, s).keys ==> RowEvolves(db.keys[i], Exec(db, s).keys[i])
  {
    assert WellFormedRow(db.keys[i]) && i < db.nextKey;
    StepOnWellFormedRow(db, s, i);
  }

  lemma StepOnWellFormedRow(db: Db, s: Step, i: nat)
    requires i in db.keys && i < db.nextKey && WellFormedRow(db.keys[i])
    ensures KeepsRow(db, Exec(db, s), i)
  {
    match s
    case Tick(dt) =>
    case InviteInsert(c, until) => I.InsertPendingOnRow(db, c, until, i);
    case InviteReclaim(id, token, until) => I.ReclaimOnRow(db, id, token, until, i);
    case InviteFinalize(f) => I.FinalizeOnRow(db, f, i);
    case InviteFail(f) => I.RecordFailureOnRow(db, f, i);
    case OperatorApprove(a) => A.ApproveOnRow(db, a, i);
    case ConsentAck(a) => A.AcknowledgeOnRow(db, a, i);
    case ConsentRevoke(w) => A.WithdrawOnRow(db, w, i);
    case GuardClaim(ws, key, route) => G.ClaimOnRow(db, ws, key, route, i);
    case GuardComplete(ws, key, status, body) => G.CompleteOnRow(db, ws, key, status, body, i);
    case GuardRelease(ws, key) => G.ReleaseOnRow(db, ws, key, i);
  }

  lemma {:induction false} RunOnRow(db: Db, steps: seq<Step>, i: nat)
    requires Inv(db) && i in db.keys
    requires db.keys[i].mode == AuthorityStrict || db.keys[i].status.Some?
    ensures i in Run(db, steps).keys && RowEvolves(db.keys[i], Run(db, steps).keys[i])
    decreases |steps|
  {
    if steps != [] {
      StepOnRow(db, steps[0], i);
      StepKeepsInv(db, steps[0]);
      RunOnRow(Exec(db, steps[0]), steps[1..], i);
    }
  }

  /** A completed row of either namespace is final, whatever any worker of any protocol does next. */
  lemma CompletedIsFinal(db: Db, steps: seq<Step>, i: nat)
    requires Inv(db) && i in db.keys && db.keys[i].status.Some?
    ensures i in Run(db, steps).keys && Run(db, steps).keys[i] == db.keys[i]
  {
    RunOnRow(db, steps, i);
  }
}
