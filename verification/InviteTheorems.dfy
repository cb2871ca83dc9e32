/** What the invitation lease protocol guarantees over every run. */
module InviteTheorems {
  import opened Wrappers
  import opened Counting
  import opened Ledger
  import opened LedgerRuns
  import opened InviteStore

  /* ---------------- exactly one event, audit row and outbox row per claim ---------------- */

  ghost function ClaimsOf(db: Db, kind: EventKind): set<nat> {
    set i | i in db.keys && Cites(db.keys[i]).Some? && Cites(db.keys[i]).value.kind == kind
  }

  ghost function EventsOf(db: Db, kind: EventKind): set<string> {
    set e | e in db.events && db.events[e].kind == kind
  }

  ghost function AuditsOf(db: Db, kind: EventKind): set<nat> {
    set a | a in db.audits && db.audits[a].kind == kind
  }

  ghost function OutboxOf(db: Db, kind: EventKind): set<string> {
    set o | o in db.outbox && db.outbox[o].kind == kind
  }

  /**
   For every kind of authority effect, completed claims, events, audit rows and outbox rows are
   equally many: each claim has its own of each, and none exists without a claim.
   */
  lemma EffectsNumberTheClaims(db: Db, kind: EventKind)
    requires Inv(db) && kind != InviteFailed
    ensures |ClaimsOf(db, kind)| == |EventsOf(db, kind)| == |AuditsOf(db, kind)| == |OutboxOf(db, kind)|
  {
    EventsNumberTheClaims(db, kind);
    AuditsNumberTheClaims(db, kind);
    OutboxNumbersTheClaims(db, kind);
  }

  ghost function EventsCited(db: Db, kind: EventKind): map<nat, string> {
    map i | i in ClaimsOf(db, kind) :: Cites(db.keys[i]).value.eventId
  }

  lemma EventsNumberTheClaims(db: Db, kind: EventKind)
    requires ClaimsGrounded(db) && ClaimsDisjoint(db) && EffectsClaimed(db) && kind != InviteFailed
    ensures |ClaimsOf(db, kind)| == |EventsOf(db, kind)|
  {
    EventsInjective(db, kind);
    EventsCovered(db, kind);
    BijectionKeepsSize(EventsCited(db, kind), EventsOf(db, kind));
    assert EventsCited(db, kind).Keys == ClaimsOf(db, kind);
  }

  lemma EventsInjective(db: Db, kind: EventKind)
    requires ClaimsDisjoint(db)
    ensures Injective(EventsCited(db, kind))
  {
    var m := EventsCited(db, kind);
    forall i, j | i in m && j in m && m[i] == m[j] ensures i == j {
      assert CitesEvent(db.keys[j], m[i]);
    }
  }

  lemma EventsCovered(db: Db, kind: EventKind)
    requires ClaimsGrounded(db) && EffectsClaimed(db) && kind != InviteFailed
    ensures forall x :: x in EventsOf(db, kind) <==> x in EventsCited(db, kind).Values
  {
    var m := EventsCited(db, kind);
    forall x ensures x in EventsOf(db, kind) <==> x in m.Values {
      if x in EventsOf(db, kind) {
        assert EventClaimed(db, x);
        var i :| i in db.keys && CitesEvent(db.keys[i], x);
        assert Grounded(db, db.keys[i]);
        assert i in m && m[i] == x;
      }
      if x in m.Values {
        var i :| i in m && m[i] == x;
        assert Grounded(db, db.keys[i]);
      }
    }
  }

  ghost function AuditsCited(db: Db, kind: EventKind): map<nat, nat> {
    map i | i in ClaimsOf(db, kind) :: Cites(db.keys[i]).value.auditId
  }

  lemma AuditsNumberTheClaims(db: Db, kind: EventKind)
    requires ClaimsGrounded(db) && ClaimsDisjoint(db) && EffectsClaimed(db) && kind != InviteFailed
    ensures |ClaimsOf(db, kind)| == |AuditsOf(db, kind)|
  {
    AuditsInjective(db, kind);
    AuditsCovered(db, kind);
    BijectionKeepsSize(AuditsCited(db, kind), AuditsOf(db, kind));
    assert AuditsCited(db, kind).Keys == ClaimsOf(db, kind);
  }

  lemma AuditsInjective(db: Db, kind: EventKind)
    requires ClaimsDisjoint(db)
    ensures Injective(AuditsCited(db, kind))
  {
    var m := AuditsCited(db, kind);
    forall i, j | i in m && j in m && m[i] == m[j] ensures i == j {
      assert CitesAudit(db.keys[j], m[i]);
    }
  }

  lemma AuditsCovered(db: Db, kind: EventKind)
    requires ClaimsGrounded(db) && EffectsClaimed(db) && kind != InviteFailed
    ensures forall x :: x in AuditsOf(db, kind) <==> x in AuditsCited(db, kind).Values
  {
    var m := AuditsCited(db, kind);
    forall x ensures x in AuditsOf(db, kind) <==> x in m.Values {
      if x in AuditsOf(db, kind) {
        assert AuditClaimed(db, x);
        var i :| i in db.keys && CitesAudit(db.keys[i], x);
        assert Grounded(db, db.keys[i]);
        assert i in m && m[i] == x;
      }
      if x in m.Values {
        var i :| i in m && m[i] == x;
        assert Grounded(db, db.keys[i]);
      }
    }
  }

  ghost function OutboxCited(db: Db, kind: EventKind): map<nat, string> {
    map i | i in ClaimsOf(db, kind) :: Cites(db.keys[i]).value.outboxId
  }

  lemma OutboxNumbersTheClaims(db: Db, kind: EventKind)
    requires ClaimsGrounded(db) && ClaimsDisjoint(db) && EffectsClaimed(db) && kind != InviteFailed
    ensures |ClaimsOf(db, kind)| == |OutboxOf(db, kind)|
  {
    OutboxInjective(db, kind);
    OutboxCovered(db, kind);
    BijectionKeepsSize(OutboxCited(db, kind), OutboxOf(db, kind));
    assert OutboxCited(db, kind).Keys == ClaimsOf(db, kind);
  }

  lemma OutboxInjective(db: Db, kind: EventKind)
    requires ClaimsDisjoint(db)
    ensures Injective(OutboxCited(db, kind))
  {
    var m := OutboxCited(db, kind);
    forall i, j | i in m && j in m && m[i] == m[j] ensures i == j {
      assert CitesOutbox(db.keys[j], m[i]);
    }
  }

  lemma OutboxCovered(db: Db, kind: EventKind)
    requires ClaimsGrounded(db) && EffectsClaimed(db) && kind != InviteFailed
    ensures forall x :: x in OutboxOf(db, kind) <==> x in OutboxCited(db, kind).Values
  {
    var m := OutboxCited(db, kind);
    forall x ensures x in OutboxOf(db, kind) <==> x in m.Values {
      if x in OutboxOf(db, kind) {
        assert OutboxClaimed(db, x);
        var i :| i in db.keys && CitesOutbox(db.keys[i], x);
        assert Grounded(db, db.keys[i]);
        assert i in m && m[i] == x;
      }
      if x in m.Values {
        var i :| i in m && m[i] == x;
        assert Grounded(db, db.keys[i]);
      }
    }
  }

  /* ---------------- a key completes at most once ---------------- */

  predicate Finished(db: Db, i: nat) { i in db.keys && db.keys[i].status.Some? }

  /** How many steps of the run turn row `i` from pending to completed. */
  ghost function Completions(db: Db, steps: seq<Step>, i: nat): nat
    decreases |steps|
  {
    if steps == [] then 0
    else
      var d := Exec(db, steps[0]);
      (if !Finished(db, i) && Finished(d, i) then 1 else 0) + Completions(d, steps[1..], i)
  }

  lemma {:induction false} CompletesAtMostOnce(db: Db, steps: seq<Step>, i: nat)
    requires Inv(db)
    ensures Completions(db, steps, i) <= 1
    ensures Completions(db, steps, i) == 1 <==> !Finished(db, i) && Finished(Run(db, steps), i)
    decreases |steps|
  {
    if steps != [] {
      var d := Exec(db, steps[0]);
      StepKeepsInv(db, steps[0]);
      CompletesAtMostOnce(d, steps[1..], i);
      if Finished(db, i) {
        StepOnRow(db, steps[0], i);
      }
      if Finished(d, i) {
        CompletedIsFinal(d, steps[1..], i);
      }
    }
  }

  /* ---------------- fencing ---------------- */

  predicate Holds(row: KeyRow, token: string) { row.body.Pending? && row.body.leaseToken == token }

  predicate Installs(s: Step, token: string) {
    (s.InviteInsert? && s.command.leaseToken == token) || (s.InviteReclaim? && s.token == token)
  }

  ghost predicate OnlyHolder(db: Db, i: nat, token: string) {
    forall j | j in db.keys && Holds(db.keys[j], token) :: j == i
  }

  ghost predicate NoHolder(db: Db, token: string) {
    forall j | j in db.keys :: !Holds(db.keys[j], token)
  }

  ghost predicate NeverInstalled(steps: seq<Step>, token: string) {
    forall k | 0 <= k < |steps| :: !Installs(steps[k], token)
  }

  lemma StepKeepsNoHolder(db: Db, s: Step, token: string)
    requires Inv(db) && NoHolder(db, token) && !Installs(s, token)
    ensures NoHolder(Exec(db, s), token)
  {
  }

  lemma {:induction false} RunKeepsNoHolder(db: Db, steps: seq<Step>, token: string)
    requires Inv(db) && NoHolder(db, token) && NeverInstalled(steps, token)
    ensures NoHolder(Run(db, steps), token)
    decreases |steps|
  {
    if steps != [] {
      assert !Installs(steps[0], token);
      StepKeepsNoHolder(db, steps[0], token);
      StepKeepsInv(db, steps[0]);
      assert NeverInstalled(steps[1..], token) by {
        assert forall k | 0 <= k < |steps[1..]| :: steps[1..][k] == steps[k + 1];
      }
      RunKeepsNoHolder(Exec(db, steps[0]), steps[1..], token);
    }
  }

  /**
   A worker whose token was replaced by a reclaim never changes anything again: however the run goes
   on, its finalize and its failure report leave every table as it is, and its finalize must read back.
   */
  lemma ReplacedWorkerIsFenced(db: Db, i: nat, stale: string, token: string, until: nat, steps: seq<Step>, f: Delivery,
                               e: Failure)
    requires Inv(db) && CanReclaim(db, i) && Holds(db.keys[i], stale) && OnlyHolder(db, i, stale)
    requires token != stale && NeverInstalled(steps, stale)
    requires f.command.leaseToken == stale && e.command.leaseToken == stale
    ensures var d := Run(Reclaim(db, i, token, until), steps);
            && Finalize(d, f) == d && RecordFailure(d, e) == d
            && (DeliveryError(f).None? ==> FinalizeAnswer(d, f).None?)
  {
    var r := Reclaim(db, i, token, until);
    ReclaimKeeps(db, i, token, until);
    assert NoHolder(r, stale);
    RunKeepsNoHolder(r, steps, stale);
    var d := Run(r, steps);
    assert FindHeld(d, f.command).None? && FindHeld(d, e.command).None?;
  }

  /* ---------------- the lease excludes other workers until it runs out ---------------- */

  lemma StepClockForward(db: Db, s: Step)
    ensures db.now <= Exec(db, s).now
  {
  }

  lemma {:induction false} ClockForward(db: Db, steps: seq<Step>)
    ensures db.now <= Run(db, steps).now
    decreases |steps|
  {
    if steps != [] {
      StepClockForward(db, steps[0]);
      ClockForward(Exec(db, steps[0]), steps[1..]);
    }
  }

  predicate ReportsFailure(s: Step, token: string) { s.InviteFail? && s.failure.command.leaseToken == token }

  ghost predicate NeverFails(steps: seq<Step>, token: string) {
    forall k | 0 <= k < |steps| :: !ReportsFailure(steps[k], token)
  }

  lemma StepKeepsLease(db: Db, s: Step, i: nat)
    requires Inv(db) && i in db.keys && LeaseActive(db.keys[i].body, db.now)
    requires !ReportsFailure(s, db.keys[i].body.leaseToken)
    ensures var d := Exec(db, s); i in d.keys && (d.keys[i] == db.keys[i] || d.keys[i].body.Delivered?)
  {
    assert WellFormedRow(db.keys[i]);
    if IsInviteStep(s) {
      InviteStepKeepsLease(db, s, i);
    } else {
      OtherStepKeepsPending(db, s, i);
    }
  }

  predicate IsInviteStep(s: Step) { s.InviteInsert? || s.InviteReclaim? || s.InviteFinalize? || s.InviteFail? }

  lemma InviteStepKeepsLease(db: Db, s: Step, i: nat)
    requires i in db.keys && i < db.nextKey && WellFormedRow(db.keys[i]) && LeaseActive(db.keys[i].body, db.now)
    requires IsInviteStep(s) && !ReportsFailure(s, db.keys[i].body.leaseToken)
    ensures var d := Exec(db, s); i in d.keys && (d.keys[i] == db.keys[i] || d.keys[i].body.Delivered?)
  {
  }

  lemma OtherStepKeepsPending(db: Db, s: Step, i: nat)
    requires i in db.keys && i < db.nextKey && WellFormedRow(db.keys[i]) && db.keys[i].body.Pending? && !IsInviteStep(s)
    ensures var d := Exec(db, s); i in d.keys && d.keys[i] == db.keys[i]
  {
  }

  /** Until database time reaches the recorded expiry, a row is exactly as its holder left it, or delivered. */
  lemma {:induction false} LeaseIsExclusive(db: Db, steps: seq<Step>, i: nat)
    requires Inv(db) && i in db.keys && db.keys[i].body.Pending?
    requires Run(db, steps).now < db.keys[i].body.leaseExpires
    requires NeverFails(steps, db.keys[i].body.leaseToken)
    ensures var d := Run(db, steps); i in d.keys && (d.keys[i] == db.keys[i] || d.keys[i].body.Delivered?)
    decreases |steps|
  {
    if steps != [] {
      var d := Exec(db, steps[0]);
      ClockForward(db, steps);
      ClockForward(d, steps[1..]);
      assert !ReportsFailure(steps[0], db.keys[i].body.leaseToken);
      StepKeepsLease(db, steps[0], i);
      StepKeepsInv(db, steps[0]);
      if d.keys[i] == db.keys[i] {
        assert NeverFails(steps[1..], db.keys[i].body.leaseToken) by {
          assert forall k | 0 <= k < |steps[1..]| :: steps[1..][k] == steps[k + 1];
        }
        LeaseIsExclusive(d, steps[1..], i);
      } else {
        assert WellFormedRow(d.keys[i]);
        CompletedIsFinal(d, steps[1..], i);
      }
    }
  }

  /* ---------------- reclaim ---------------- */

  /** A reclaim succeeds exactly on a pending invitation whose recorded expiry database time has reached. */
  lemma ReclaimExactly(db: Db, i: nat, c: Command)
    requires Inv(db)
    ensures ReclaimAnswer(db, i, c).Ok? <==>
              i in db.keys && db.keys[i].body.Pending? && db.keys[i].body.leaseExpires <= db.now
  {
    if i in db.keys {
      assert WellFormedRow(db.keys[i]);
    }
  }

  predicate Complete(t: InviteTerms) {
    t.email != "" && t.clerkRole != "" && t.workspaceRole != "" && t.requestedRole != "" && t.roleBasis != ""
  }

  /**
   Through any number of expiries, failures and reclaims, whoever reclaims a key is handed the command
   id of the first reservation, and its email and roles as long as none of them was empty.
   */
  lemma ReclaimHandsBackTheFirstCommand(db: Db, first: Command, until: nat, steps: seq<Step>, c: Command)
    requires Inv(db) && CommandError(first).None? && FindCommand(db, first).None?
    ensures var i := db.nextKey;
            var d := Run(InsertPending(db, first, until), steps);
            && i in d.keys && SlotOf(d.keys[i]) == SlotOf(PendingRow(first, until))
            && d.keys[i].digest == Some(first.digest)
            && (ReclaimAnswer(d, i, c).Ok? ==>
                  ReclaimAnswer(d, i, c).value
                  == Acquired(first.commandId, c.leaseToken, true,
                              Fallback(NormalEmail(first.terms), NormalEmail(c.terms))))
            && (ReclaimAnswer(d, i, c).Ok? && Complete(NormalEmail(first.terms)) ==>
                  ReclaimAnswer(d, i, c).value.terms == NormalEmail(first.terms))
  {
    InsertPendingKeeps(db, first, until);
    RunOnRow(InsertPending(db, first, until), steps, db.nextKey);
  }

  /* ---------------- a completed invitation is final ---------------- */

  /** What any later reserve or losing finalize of a completed key is told. */
  function FinalAnswer(row: KeyRow, digest: string): Result<InviteReceipt, Error>
    requires row.body.Delivered?
  {
    if row.digest != Some(digest) then Err(KeyReused)
    else if row.body.invite.terms.clerkRole == "" then Err(AtomicityFailed)
    else Ok(row.body.invite.(replayed := true))
  }

  /**
   With other workers' steps before and between its statements, a later reserve of a completed key
   inserts nothing and answers the stored receipt (replayed), or refuses a different digest. A receipt
   without a provider role is refused as incomplete.
   */
  lemma ReserveAfterCompletion(db: Db, i: nat, c: Command, before: seq<Step>, between: seq<Step>, until: nat)
    requires Inv(db) && i in db.keys && db.keys[i].body.Delivered?
    requires StrictMatch(db.keys[i], c.workspace, c.actor, c.route, c.key)
    ensures var d := Run(db, before);
            var later := Run(d, between);
            && InsertPending(d, c, until) == d
            && SelectCommand(later, c)
               == Answer(match FinalAnswer(db.keys[i], c.digest)
                         case Ok(r) => Ok(AlreadyDelivered(r.commandId, r))
                         case Err(e) => Err(e))
  {
    assert WellFormedRow(db.keys[i]);
    RunKeepsInv(db, before);
    CompletedIsFinal(db, before, i);
    var d := Run(db, before);
    FindStrictUnique(d, i);
    RunKeepsInv(d, between);
    CompletedIsFinal(d, between, i);
    FindStrictUnique(Run(d, between), i);
  }

  /** A finalize that lost changes nothing and reads back the same receipt. */
  lemma FinalizeAfterCompletion(db: Db, i: nat, f: Delivery, before: seq<Step>, between: seq<Step>)
    requires Inv(db) && i in db.keys && db.keys[i].body.Delivered? && DeliveryError(f).None?
    requires var c := f.command; StrictMatch(db.keys[i], c.workspace, c.actor, c.route, c.key)
    ensures var d := Run(db, before);
            var later := Run(d, between);
            && Finalize(d, f) == d && FinalizeAnswer(d, f).None?
            && ReadBack(later, f.command)
               == if db.keys[i].digest != Some(f.command.digest) then Err(AtomicityFailed)
                  else FinalAnswer(db.keys[i], f.command.digest)
  {
    assert WellFormedRow(db.keys[i]);
    RunKeepsInv(db, before);
    CompletedIsFinal(db, before, i);
    var d := Run(db, before);
    FindStrictUnique(d, i);
    RunKeepsInv(d, between);
    CompletedIsFinal(d, between, i);
    FindStrictUnique(Run(d, between), i);
  }

  /** The winning finalize answers the receipt it stored, and every later reserve repeats it. */
  lemma WinnerAndRepeatersAgree(db: Db, f: Delivery, between: seq<Step>)
    requires Inv(db) && Finalizes(db, f) && f.command.terms.clerkRole != ""
    ensures FinalizeAnswer(db, f).Some? && FinalizeAnswer(db, f).value.Ok?
    ensures var r := FinalizeAnswer(db, f).value.value;
            && !r.replayed && r.commandId == f.command.commandId && r.invitationId == f.invitationId
            && SelectCommand(Run(Finalize(db, f), between), f.command)
               == Answer(Ok(AlreadyDelivered(r.commandId, r.(replayed := true))))
  {
    var i := FindHeld(db, f.command).value;
    assert WellFormedRow(db.keys[i]);
    FinalizeKeeps(db, f);
    var d := Finalize(db, f);
    assert d.keys[i].body.Delivered?;
    ReserveAfterCompletion(d, i, f.command, [], between, 0);
  }
}
