/**
 The three protocols as the worker runs them: methods that update the tables in place. A method of
 several statements takes, for each gap between two of them, the steps other workers get in there.
 Each method is proved against the statement functions, so every theorem about runs applies to it.
 */
module LedgerDatabase {
  import opened Wrappers
  import opened Text
  import opened Ledger
  import opened LedgerRuns
  import I = InviteStore
  import A = AuthorityStore
  import G = RetryGuard

  /** Reserve, statement by statement, with `gap1` before the select and `gap2` before the reclaim. */
  ghost function Reserved(db: Db, c: I.Command, until: nat, gap1: seq<Step>, gap2: seq<Step>, again: nat)
    : (Db, Result<I.Reservation, I.Error>)
  {
    if I.CommandError(c).Some? then (db, Err(I.CommandError(c).value))
    else if I.FindCommand(db, c).None? then
      (I.InsertPending(db, c, until), Ok(I.Acquired(c.commandId, c.leaseToken, false, I.NormalEmail(c.terms))))
    else
      var d := Run(db, gap1);
      match I.SelectCommand(d, c)
      case Answer(a) => (d, a)
      case TryReclaim(id) =>
        var e := Run(d, gap2);
        (I.Reclaim(e, id, c.leaseToken, again), I.ReclaimAnswer(e, id, c))
  }

  ghost function Finalized(db: Db, f: I.Delivery, gap: seq<Step>): (Db, Result<InviteReceipt, I.Error>) {
    var d := I.Finalize(db, f);
    match I.FinalizeAnswer(db, f)
    case Some(a) => (d, a)
    case None => (Run(d, gap), I.ReadBack(Run(d, gap), f.command))
  }

  ghost function Acknowledged(db: Db, a: A.Ack, gap: seq<Step>): (Db, Result<AuthorityReceipt, A.Error>) {
    var outcome := A.AckOutcome(db, a);
    var d := A.Acknowledge(db, a);
    var later := if outcome.ClaimTaken? then Run(d, gap) else d;
    (later, A.Answer(outcome, later, a.claim))
  }

  ghost function Withdrawn(db: Db, w: A.Withdrawal, gap: seq<Step>): (Db, Result<AuthorityReceipt, A.Error>) {
    var outcome := A.WithdrawalOutcome(db, w);
    var d := A.Withdraw(db, w);
    var later := if outcome.ClaimTaken? then Run(d, gap) else d;
    (later, A.Answer(outcome, later, w.claim))
  }

  ghost function GuardReserved(db: Db, workspace: string, key: string, route: Route, gap: seq<Step>)
    : (Db, G.Reservation)
  {
    if G.Keyless(workspace, key) then (db, G.Owned)
    else if G.Claims(db, workspace, key) then (G.Claim(db, workspace, key, route), G.Owned)
    else (Run(db, gap), G.Read(Run(db, gap), workspace, key))
  }

  class Database {
    var now: nat
    var keys: map<nat, KeyRow>
    var nextKey: nat
    var events: map<string, Event>
    var audits: map<nat, Audit>
    var nextAudit: nat
    var outbox: map<string, Outbox>
    var consents: map<string, Consent>

    ghost function State(): Db
      reads this
    {
      Db(now, keys, nextKey, events, audits, nextAudit, outbox, consents)
    }

    ghost predicate Valid()
      reads this
    {
      Inv(State())
    }

    constructor ()
      ensures Valid() && State() == EMPTY
    {
      now, keys, nextKey, events := 0, map[], 0, map[];
      audits, nextAudit, outbox, consents := map[], 0, map[], map[];
    }

    /* ---------------- reads ---------------- */

    method SelectStrict(workspace: string, actor: string, route: Route, key: string) returns (r: Option<nat>)
      requires Valid()
      ensures r == FindStrict(State(), workspace, actor, route, key)
    {
      if i :| i in keys && StrictMatch(keys[i], workspace, actor, route, key) {
        FindStrictUnique(State(), i);
        r := Some(i);
      } else {
        r := None;
      }
    }

    method SelectGuard(workspace: string, key: string) returns (r: Option<nat>)
      requires Valid()
      ensures r == FindGuard(State(), workspace, key)
    {
      if i :| i in keys && GuardMatch(keys[i], workspace, key) {
        FindGuardUnique(State(), i);
        r := Some(i);
      } else {
        r := None;
      }
    }

    method SelectActive(workspace: string) returns (r: Option<string>)
      requires Valid()
      ensures r == FindActive(State(), workspace)
    {
      if i :| i in consents && ActiveFor(consents[i], workspace) {
        FindActiveUnique(State(), i);
        r := Some(i);
      } else {
        r := None;
      }
    }

    method GetAuthorityState(workspace: string) returns (s: A.State)
      requires Valid()
      ensures s == A.AuthorityState(State(), workspace)
    {
      var active := SelectActive(workspace);
      if active.None? {
        return A.State(false, false, false);
      }
      var c := consents[active.value];
      s := A.State(c.approvedAt.Some? && c.ackedAt.Some?, c.approvedAt.Some?, c.ackedAt.Some?);
    }

    /* ---------------- invitations ---------------- */

    method InsertPending(c: I.Command, until: nat) returns (inserted: bool)
      requires Valid()
      modifies this
      ensures Valid() && State() == I.InsertPending(old(State()), c, until)
      ensures inserted == (I.CommandError(c).None? && I.FindCommand(old(State()), c).None?)
    {
      var existing := SelectStrict(c.workspace, c.actor, c.route, c.key);
      I.InsertPendingKeeps(State(), c, until);
      inserted := I.CommandError(c).None? && existing.None?;
      if inserted {
        keys := keys[nextKey := I.PendingRow(c, until)];
        nextKey := nextKey + 1;
      }
    }

    method Reclaim(id: nat, token: string, until: nat)
      requires Valid()
      modifies this
      ensures Valid() && State() == I.Reclaim(old(State()), id, token, until)
    {
      I.ReclaimKeeps(State(), id, token, until);
      if id in keys && keys[id].status.None? && keys[id].body.Pending? && keys[id].body.leaseExpires <= now {
        var body := keys[id].body;
        keys := keys[id := keys[id].(body := body.(failed := false, leaseToken := token, leaseExpires := until))];
      }
    }

    method ReserveCustomerInvite(c: I.Command, until: nat, gap1: seq<Step>, gap2: seq<Step>, again: nat)
      returns (r: Result<I.Reservation, I.Error>)
      requires Valid()
      modifies this
      ensures Valid()
      ensures (State(), r) == Reserved(old(State()), c, until, gap1, gap2, again)
    {
      var refused := I.CommandError(c);
      if refused.Some? {
        return Err(refused.value);
      }
      var inserted := InsertPending(c, until);
      if inserted {
        return Ok(I.Acquired(c.commandId, c.leaseToken, false, I.NormalEmail(c.terms)));
      }
      OtherWorkers(gap1);
      var found := SelectStrict(c.workspace, c.actor, c.route, c.key);
      if found.None? {
        return Err(I.AtomicityFailed);
      }
      var row := keys[found.value];
      if row.digest != Some(c.digest) {
        return Err(I.KeyReused);
      }
      if row.status.Some? && !row.body.Null? {
        var receipt := I.ReadReceipt(row.body, true);
        match receipt {
          case Ok(x) => return Ok(I.AlreadyDelivered(Or(x.commandId, c.commandId), x));
          case Err(e) => return Err(e);
        }
      }
      if row.body.Pending? && row.body.leaseExpires > now {
        return Err(I.InProgress);
      }
      OtherWorkers(gap2);
      r := I.ReclaimAnswer(Db(now, keys, nextKey, events, audits, nextAudit, outbox, consents), found.value, c);
      Reclaim(found.value, c.leaseToken, again);
    }

    /** Event, audit and outbox rows of a claim, and the claim itself. */
    method WriteClaim(id: nat, claim: KeyRow)
      requires claim.actor.Some? && claim.digest.Some? && Cites(claim).Some?
      modifies this
      ensures State() == Commit(old(State()), id, claim)
    {
      var c := Cites(claim).value;
      events := events[c.eventId := Event(claim.workspace, claim.actor.value, c.kind)];
      audits := audits[c.auditId :=
        Audit(claim.workspace, claim.actor.value, c.kind, c.eventId, c.subject, claim.digest)];
      nextAudit := nextAudit + 1;
      outbox := outbox[c.outboxId :=
        Outbox(claim.workspace, c.kind, c.subject, c.eventId, c.auditId, claim.digest.value)];
      if id !in keys {
        nextKey := nextKey + 1;
      }
      keys := keys[id := claim];
    }

    /** Answers None when no row is held and the stored response must be read back. */
    method FinalizeStatement(f: I.Delivery) returns (r: Option<Result<InviteReceipt, I.Error>>)
      requires Valid()
      modifies this
      ensures Valid() && State() == I.Finalize(old(State()), f)
      ensures r == I.FinalizeAnswer(old(State()), f)
    {
      var c := f.command;
      var refused := I.DeliveryError(f);
      if refused.Some? {
        return Some(Err(refused.value));
      }
      var found := SelectStrict(c.workspace, c.actor, c.route, c.key);
      if found.None? || !I.HeldBy(keys[found.value], c) {
        return None;
      }
      if f.eventId in events || f.outboxId in outbox {
        return Some(Err(I.DuplicateRow));
      }
      I.FinalizeKeeps(State(), f);
      var receipt := I.DeliveredReceipt(f, nextAudit);
      WriteClaim(found.value, I.CompletedRow(keys[found.value], f, nextAudit));
      r := Some(I.ReadReceipt(Delivered(receipt), false));
    }

    method FinalizeCustomerInvite(f: I.Delivery, gap: seq<Step>) returns (r: Result<InviteReceipt, I.Error>)
      requires Valid()
      modifies this
      ensures Valid()
      ensures (State(), r) == Finalized(old(State()), f, gap)
    {
      var answer := FinalizeStatement(f);
      if answer.Some? {
        return answer.value;
      }
      OtherWorkers(gap);
      var c := f.command;
      var found := SelectStrict(c.workspace, c.actor, c.route, c.key);
      if found.None? || keys[found.value].digest != Some(c.digest) || keys[found.value].status.None? {
        return Err(I.AtomicityFailed);
      }
      r := I.ReadReceipt(keys[found.value].body, true);
    }

    method RecordDeliveryFailure(f: I.Failure)
      requires Valid()
      modifies this
      ensures Valid() && State() == I.RecordFailure(old(State()), f)
    {
      var c := f.command;
      I.RecordFailureKeeps(State(), f);
      if I.FailureSkipped(f) {
        return;
      }
      var found := SelectStrict(c.workspace, c.actor, c.route, c.key);
      if found.Some? && I.HeldBy(keys[found.value], c) && f.eventId !in events {
        WriteFailure(found.value, f);
      }
    }

    method WriteFailure(id: nat, f: I.Failure)
      requires I.FindHeld(State(), f.command) == Some(id)
      requires !I.FailureSkipped(f) && f.eventId !in events
      modifies this
      ensures State() == I.RecordFailure(old(State()), f)
    {
      var c := f.command;
      var row := keys[id];
      var code := I.FailureCode(f.errorCode);
      keys := keys[id := row.(body := row.body.(
        failed := true, leaseExpires := now, lastError := Some(code), lastAttempt := Some(now)))];
      events := events[f.eventId := Event(c.workspace, c.actor, InviteFailed)];
      audits := audits[nextAudit := Audit(c.workspace, c.actor, InviteFailed, f.eventId, c.commandId, None)];
      nextAudit := nextAudit + 1;
    }

    /* ---------------- consents ---------------- */

    method RecordOperatorAuthority(a: A.Approval)
      requires Valid()
      modifies this
      ensures Valid() && State() == A.Approve(old(State()), a)
    {
      A.ApproveKeeps(State(), a);
      if A.ApprovalRefused(a) {
        return;
      }
      var active := SelectActive(a.workspace);
      if active.Some? {
        var c := consents[active.value];
        consents := consents[active.value := c.(
          approvedAt := Some(now), approvedBy := Some(a.operator),
          accessRequest := Coalesce(a.accessRequest, c.accessRequest), updatedAt := now)];
      } else if A.ConsentId(a.nanoid) !in consents {
        consents := consents[A.ConsentId(a.nanoid) :=
          Consent(a.workspace, a.accessRequest, Some(now), Some(a.operator), None, None, None, "authority_v1",
                  None, None, None, now)];
      }
    }

    method AckStatement(a: A.Ack) returns (outcome: A.Outcome)
      requires Valid()
      modifies this
      ensures Valid() && State() == A.Acknowledge(old(State()), a)
      ensures outcome == A.AckOutcome(old(State()), a)
    {
      var refused := A.AckError(a);
      if refused.Some? {
        return A.Refused(refused.value);
      }
      var active := SelectActive(a.claim.workspace);
      var id := if active.Some? then active.value else A.ConsentId(a.nanoid);
      if (active.None? && id in consents) || a.eventId in events || a.outboxId in outbox {
        return A.Collided;
      }
      var claimed := SelectStrict(a.claim.workspace, a.claim.actor, a.claim.route, Trim(a.claim.key));
      if claimed.Some? {
        return A.ClaimTaken;
      }
      A.AcknowledgeKeeps(State(), a);
      outcome := WriteAck(a, active, id);
    }

    method WriteAck(a: A.Ack, active: Option<string>, id: string) returns (outcome: A.Outcome)
      requires A.AckOutcome(State(), a).Committed? && active == FindActive(State(), a.claim.workspace)
      requires id == A.AckTarget(State(), a)
      modifies this
      ensures State() == A.Acknowledge(old(State()), a) && outcome == A.AckOutcome(old(State()), a)
    {
      var consent := A.AckedConsent(if active.Some? then Some(consents[id]) else None, a);
      var receipt := AuthorityReceipt(id, consent, a.eventId, nextAudit, a.outboxId, a.at, false);
      consents := consents[id := consent];
      WriteClaim(nextKey, A.ClaimRow(a.claim, 202, receipt));
      outcome := A.Committed(receipt);
    }

    method RecordConsentAck(a: A.Ack, gap: seq<Step>) returns (r: Result<AuthorityReceipt, A.Error>)
      requires Valid()
      modifies this
      ensures Valid()
      ensures (State(), r) == Acknowledged(old(State()), a, gap)
    {
      var outcome := AckStatement(a);
      r := AnswerClaim(outcome, a.claim, gap);
    }

    method WithdrawStatement(w: A.Withdrawal) returns (outcome: A.Outcome)
      requires Valid()
      modifies this
      ensures Valid() && State() == A.Withdraw(old(State()), w)
      ensures outcome == A.WithdrawalOutcome(old(State()), w)
    {
      var refused := A.WithdrawalError(w);
      if refused.Some? {
        return A.Refused(refused.value);
      }
      var active := SelectActive(w.claim.workspace);
      if active.Some? && (w.eventId in events || w.outboxId in outbox) {
        return A.Collided;
      }
      var claimed := SelectStrict(w.claim.workspace, w.claim.actor, w.claim.route, Trim(w.claim.key));
      if claimed.Some? {
        return A.ClaimTaken;
      }
      if active.None? {
        return A.Refused(A.NotFound);
      }
      A.WithdrawKeeps(State(), w);
      outcome := WriteWithdrawal(w, active);
    }

    method WriteWithdrawal(w: A.Withdrawal, active: Option<string>) returns (outcome: A.Outcome)
      requires A.WithdrawalOutcome(State(), w).Committed? && active == FindActive(State(), w.claim.workspace)
      modifies this
      ensures State() == A.Withdraw(old(State()), w) && outcome == A.WithdrawalOutcome(old(State()), w)
    {
      var consent := A.RevokedConsent(consents[active.value], w);
      var receipt := AuthorityReceipt(active.value, consent, w.eventId, nextAudit, w.outboxId, w.at, false);
      consents := consents[active.value := consent];
      WriteClaim(nextKey, A.ClaimRow(w.claim, 200, receipt));
      outcome := A.Committed(receipt);
    }

    method RevokeCustomerAuthority(w: A.Withdrawal, gap: seq<Step>) returns (r: Result<AuthorityReceipt, A.Error>)
      requires Valid()
      modifies this
      ensures Valid()
      ensures (State(), r) == Withdrawn(old(State()), w, gap)
    {
      var outcome := WithdrawStatement(w);
      r := AnswerClaim(outcome, w.claim, gap);
    }

    method AnswerClaim(outcome: A.Outcome, c: A.Claim, gap: seq<Step>) returns (r: Result<AuthorityReceipt, A.Error>)
      requires Valid()
      modifies this
      ensures Valid() && State() == if outcome.ClaimTaken? then Run(old(State()), gap) else old(State())
      ensures r == A.Answer(outcome, State(), c)
    {
      match outcome {
        case Refused(e) => r := Err(e);
        case Collided => r := Err(A.DuplicateRow);
        case Committed(receipt) => r := Ok(receipt);
        case ClaimTaken =>
          OtherWorkers(gap);
          r := ReadReplay(c);
      }
    }

    method ReadReplay(c: A.Claim) returns (r: Result<AuthorityReceipt, A.Error>)
      requires Valid()
      ensures r == A.ReadReplay(State(), c)
    {
      var found := SelectStrict(c.workspace, c.actor, c.route, Trim(c.key));
      if found.None? {
        return Err(A.Internal);
      }
      var row := keys[found.value];
      if row.digest != Some(c.digest) {
        return Err(A.KeyReused);
      }
      if row.status.None? || row.body.Null? {
        return Err(A.AtomicityFailed);
      }
      r := A.RehydrateReceipt(row.body);
    }

    /* ---------------- retry guard ---------------- */

    method ClaimKey(workspace: string, key: string, route: Route) returns (owned: bool)
      requires Valid()
      modifies this
      ensures Valid() && State() == G.Claim(old(State()), workspace, key, route)
      ensures owned == G.Claims(old(State()), workspace, key)
    {
      G.ClaimKeeps(State(), workspace, key, route);
      var existing := SelectGuard(Trim(workspace), Trim(key));
      owned := !G.Keyless(workspace, key) && existing.None?;
      if owned {
        keys := keys[nextKey :=
          KeyRow(Trim(workspace), Trim(key), G.CleanRoute(route), None, None, RetryGuard, None, Null)];
        nextKey := nextKey + 1;
      }
    }

    method ReserveIdempotencyKey(workspace: string, key: string, route: Route, gap: seq<Step>)
      returns (r: G.Reservation)
      requires Valid()
      modifies this
      ensures Valid()
      ensures (State(), r) == GuardReserved(old(State()), workspace, key, route, gap)
    {
      if G.Keyless(workspace, key) {
        return G.Owned;
      }
      var owned := ClaimKey(workspace, key, route);
      if owned {
        return G.Owned;
      }
      OtherWorkers(gap);
      var found := SelectGuard(Trim(workspace), Trim(key));
      if found.None? {
        return G.Owned;
      }
      var row := keys[found.value];
      if row.status.None? {
        return G.InProgress;
      }
      r := G.Replay(G.StatusOr200(row.status.value), if row.body.Response? then row.body.json else "null");
    }

    method CompleteIdempotencyKey(workspace: string, key: string, status: int, body: string)
      requires Valid()
      modifies this
      ensures Valid() && State() == G.Complete(old(State()), workspace, key, status, body)
    {
      G.CompleteKeeps(State(), workspace, key, status, body);
      var found := SelectGuard(Trim(workspace), Trim(key));
      if !G.Keyless(workspace, key) && found.Some? && keys[found.value].status.None? {
        keys := keys[found.value := keys[found.value].(status := Some(G.StatusOr200(status)), body := Response(body))];
      }
    }

    method ReleaseIdempotencyKey(workspace: string, key: string)
      requires Valid()
      modifies this
      ensures Valid() && State() == G.Release(old(State()), workspace, key)
    {
      G.ReleaseKeeps(State(), workspace, key);
      var found := SelectGuard(Trim(workspace), Trim(key));
      if !G.Keyless(workspace, key) && found.Some? && keys[found.value].status.None? {
        keys := keys - {found.value};
      }
    }

    /* ---------------- other workers ---------------- */

    method ExecuteStep(s: Step)
      requires Valid()
      modifies this
      ensures Valid() && State() == Exec(old(State()), s)
    {
      match s {
        case Tick(dt) => AdvanceClock(dt);
        case InviteInsert(c, until) => var _ := InsertPending(c, until);
        case InviteReclaim(id, token, until) => Reclaim(id, token, until);
        case InviteFinalize(f) => var _ := FinalizeStatement(f);
        case InviteFail(f) => RecordDeliveryFailure(f);
        case OperatorApprove(a) => RecordOperatorAuthority(a);
        case ConsentAck(a) => var _ := AckStatement(a);
        case ConsentRevoke(w) => var _ := WithdrawStatement(w);
        case GuardClaim(ws, key, route) => var _ := ClaimKey(ws, key, route);
        case GuardComplete(ws, key, status, body) => CompleteIdempotencyKey(ws, key, status, body);
        case GuardRelease(ws, key) => ReleaseIdempotencyKey(ws, key);
      }
    }

    method AdvanceClock(dt: nat)
      requires Valid()
      modifies this`now
      ensures Valid() && State() == old(State()).(now := old(now) + dt)
    {
      TickKeeps(State(), dt);
      now := now + dt;
    }

    method OtherWorkers(steps: seq<Step>)
      requires Valid()
      modifies this
      ensures Valid() && State() == Run(old(State()), steps)
    {
      ghost var before := State();
      for i := 0 to |steps|
        invariant Valid() && State() == Run(before, steps[..i])
      {
        RunAppend(before, steps[..i], [steps[i]]);
        assert steps[..i + 1] == steps[..i] + [steps[i]];
        ExecuteStep(steps[i]);
      }
      assert steps[..|steps|] == steps;
    }
  }
}
