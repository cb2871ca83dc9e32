/**
 What an invitation call answers and writes, said of rows and columns alone: whoever is told that a
 delivery is theirs holds the key, a holder's delivery completes it, and a reported failure frees it.
 */
module InviteEffects {
  import opened Wrappers
  import opened Text
  import opened Ledger
  import opened LedgerRuns
  import opened InviteStore
  import opened InviteTheorems
  import opened LedgerDatabase

  /* ---------------- commands and rows, column by column ---------------- */

  /** The four columns of the strict namespace's unique index. */
  predicate SlotRow(row: KeyRow, c: Command) {
    && row.mode == AuthorityStrict && row.workspace == c.workspace && row.actor == Some(c.actor)
    && row.route == c.route && row.key == c.key
  }

  ghost predicate SlotTaken(db: Db, c: Command) {
    exists i :: i in db.keys && SlotRow(db.keys[i], c)
  }

  /** Row `i` waits for this command: its slot, its digest, its command id and its lease token. */
  predicate WaitsFor(db: Db, i: nat, c: Command) {
    && i in db.keys && SlotRow(db.keys[i], c) && db.keys[i].digest == Some(c.digest) && db.keys[i].status == None
    && db.keys[i].body.Pending? && db.keys[i].body.commandId == c.commandId
       && db.keys[i].body.leaseToken == c.leaseToken
  }

  /** The address is compared and stored without surrounding space, in lower case. */
  predicate SameTerms(stored: InviteTerms, sent: InviteTerms) {
    stored == sent.(email := Lower(Trim(sent.email)))
  }

  /** Which commands get past the validator. */
  lemma AcceptedCommands(c: Command)
    ensures CommandError(c).None? <==>
              && c.workspace != "" && Trim(c.workspace) != "" && c.actor != "" && c.commandId != ""
                 && c.leaseToken != ""
              && Trim(c.terms.email) != "" && 0 < |c.key| <= 200 && c.route == InviteRoute && IsDigest(c.digest)
    ensures CommandError(c) == Some(KeyRequired) <==>
              && c.workspace != "" && c.actor != "" && c.commandId != "" && c.leaseToken != ""
                 && Trim(c.terms.email) != ""
              && c.key != "" && (c.route != InviteRoute || |c.key| > 200)
  {
  }

  lemma SlotRowIsFound(db: Db, c: Command, i: nat)
    requires UniqueSlots(db.keys) && i in db.keys && SlotRow(db.keys[i], c)
    ensures FindCommand(db, c) == Some(i)
  {
    FindStrictUnique(db, i);
  }

  lemma SlotTakenExactly(db: Db, c: Command)
    requires UniqueSlots(db.keys)
    ensures SlotTaken(db, c) <==> FindCommand(db, c).Some?
  {
  }

  /* ---------------- reserve ---------------- */

  /**
   A valid command whose slot is free is answered its own ids and terms, nothing to reconcile, and stored
   as one pending row that waits for it.
   */
  lemma FirstReservation(db: Db, c: Command, until: nat, gap1: seq<Step>, gap2: seq<Step>, again: nat)
    requires Inv(db) && CommandError(c).None? && !SlotTaken(db, c)
    ensures var (d, r) := Reserved(db, c, until, gap1, gap2, again);
            && r.Ok? && r.value.Acquired? && !r.value.reconcile
            && r.value.commandId == c.commandId && r.value.leaseToken == c.leaseToken
            && SameTerms(r.value.terms, c.terms)
            && WaitsFor(d, db.nextKey, c) && SameTerms(d.keys[db.nextKey].body.terms, c.terms)
            && d.keys[db.nextKey].body.leaseExpires == until && !d.keys[db.nextKey].body.failed
            && d == db.(keys := db.keys[db.nextKey := d.keys[db.nextKey]], nextKey := db.nextKey + 1)
  {
    SlotTakenExactly(db, c);
  }

  /** What a reserve of a taken slot is told, by the row as the select and then the reclaim find it. */
  lemma LaterReservation(db: Db, i: nat, c: Command, until: nat, gap1: seq<Step>, gap2: seq<Step>, again: nat)
    requires Inv(db) && CommandError(c).None? && i in db.keys && SlotRow(db.keys[i], c)
    ensures var d := Run(db, gap1);
            var e := Run(d, gap2);
            var (f, r) := Reserved(db, c, until, gap1, gap2, again);
            && i in d.keys && i in e.keys
            && (d.keys[i].digest != Some(c.digest) ==> f == d && r == Err(KeyReused))
            && (d.keys[i].digest == Some(c.digest) && d.keys[i].body.Delivered? ==>
                  f == d && r == DeliveredAnswer(d.keys[i].body.invite))
            && (d.keys[i].digest == Some(c.digest) && d.keys[i].body.Pending? && d.keys[i].body.leaseExpires > d.now ==>
                  f == d && r == Err(InProgress))
            && (d.keys[i].digest == Some(c.digest) && d.keys[i].body.Pending? && d.keys[i].body.leaseExpires <= d.now
                && !(e.keys[i].body.Pending? && e.keys[i].body.leaseExpires <= e.now) ==>
                  f == e && r == Err(InProgress))
            && (d.keys[i].digest == Some(c.digest) && d.keys[i].body.Pending? && d.keys[i].body.leaseExpires <= d.now
                && e.keys[i].body.Pending? && e.keys[i].body.leaseExpires <= e.now ==>
                  Reclaimed(e, f, i, c, again, r))
  {
    TakenSlotStays(db, i, gap1);
    var d := Run(db, gap1);
    TakenSlotStays(d, i, gap2);
    var e := Run(d, gap2);
    SlotRowIsFound(db, c, i);
    SelectByRow(d, i, c);
    if d.keys[i].body.Pending? && d.keys[i].digest == Some(c.digest) {
      ReclaimByRow(e, i, c, again);
    }
  }

  lemma SelectByRow(d: Db, i: nat, c: Command)
    requires Inv(d) && i in d.keys && SlotRow(d.keys[i], c)
    ensures d.keys[i].digest != Some(c.digest) ==> SelectCommand(d, c) == Answer(Err(KeyReused))
    ensures d.keys[i].digest == Some(c.digest) && d.keys[i].body.Pending? ==>
              SelectCommand(d, c) == if d.keys[i].body.leaseExpires > d.now then Answer(Err(InProgress))
                else TryReclaim(i)
    ensures d.keys[i].digest == Some(c.digest) && d.keys[i].body.Delivered? ==>
              SelectCommand(d, c) == Answer(DeliveredAnswer(d.keys[i].body.invite))
    ensures !d.keys[i].body.Pending? ==> SelectCommand(d, c).Answer?
    ensures SelectCommand(d, c).Answer?
            ==> SelectCommand(d, c).answer.Err? || SelectCommand(d, c).answer.value.AlreadyDelivered?
  {
    SlotRowIsFound(d, c, i);
    assert WellFormedRow(d.keys[i]);
  }

  lemma ReclaimByRow(e: Db, i: nat, c: Command, again: nat)
    requires Inv(e) && i in e.keys && SlotRow(e.keys[i], c) && e.keys[i].digest == Some(c.digest)
    ensures var f, r := Reclaim(e, i, c.leaseToken, again), ReclaimAnswer(e, i, c);
            if e.keys[i].body.Pending? && e.keys[i].body.leaseExpires <= e.now then Reclaimed(e, f, i, c, again, r)
            else f == e && r == Err(InProgress)
  {
    assert WellFormedRow(e.keys[i]);
  }

  /** A delivered row answers its receipt, marked as a replay; one without a provider role is no receipt. */
  function DeliveredAnswer(r: InviteReceipt): Result<Reservation, Error> {
    if r.terms.clerkRole == "" then Err(AtomicityFailed)
    else
      Ok(AlreadyDelivered(r.commandId,
        InviteReceipt(r.commandId, r.invitationId, r.providerStatus, r.terms, r.workspace, r.eventId, r.auditId,
                      r.outboxId, r.watermark, true)))
  }

  /** A reclaim leaves the row but for the lease, now the caller's, and answers what the row holds. */
  ghost predicate Reclaimed(e: Db, f: Db, i: nat, c: Command, again: nat, r: Result<Reservation, Error>)
    requires i in e.keys && e.keys[i].body.Pending?
  {
    && r.Ok? && r.value.Acquired? && r.value.reconcile
    && i in f.keys && WaitsFor(f, i, c.(commandId := r.value.commandId, leaseToken := r.value.leaseToken))
    && r.value.leaseToken == c.leaseToken && r.value.commandId == e.keys[i].body.commandId
    && f.keys[i].body.terms == e.keys[i].body.terms && f.keys[i].body.leaseExpires == again && !f.keys[i].body.failed
    && f == e.(keys := e.keys[i := f.keys[i]])
    && StoredOrSent(e.keys[i].body.terms, c.terms, r.value.terms)
    && (Complete(e.keys[i].body.terms) ==> r.value.terms == e.keys[i].body.terms)
  }

  /** Each part as stored, or where that is empty as the caller sent it. */
  predicate StoredOrSent(stored: InviteTerms, sent: InviteTerms, t: InviteTerms) {
    && t.email == (if stored.email != "" then stored.email else Lower(Trim(sent.email)))
    && t.clerkRole == (if stored.clerkRole != "" then stored.clerkRole else sent.clerkRole)
    && t.workspaceRole == (if stored.workspaceRole != "" then stored.workspaceRole else sent.workspaceRole)
    && t.requestedRole == (if stored.requestedRole != "" then stored.requestedRole else sent.requestedRole)
    && t.roleBasis == (if stored.roleBasis != "" then stored.roleBasis else sent.roleBasis)
  }

  lemma TakenSlotStays(db: Db, i: nat, steps: seq<Step>)
    requires Inv(db) && i in db.keys && db.keys[i].mode == AuthorityStrict
    ensures i in Run(db, steps).keys && SlotOf(Run(db, steps).keys[i]) == SlotOf(db.keys[i])
    ensures Run(db, steps).keys[i].digest == db.keys[i].digest && Run(db, steps).keys[i].mode == AuthorityStrict
    ensures Inv(Run(db, steps))
  {
    RunOnRow(db, steps, i);
    RunKeepsInv(db, steps);
  }

  /**
   Whoever is answered that the delivery is theirs holds the key: a row of the slot waits for the very
   command id and lease token answered. They must reconcile exactly when the slot was taken before.
   */
  lemma AcquiredMeansHolding(db: Db, c: Command, until: nat, gap1: seq<Step>, gap2: seq<Step>, again: nat)
    requires Inv(db) && Reserved(db, c, until, gap1, gap2, again).1.Ok?
    requires Reserved(db, c, until, gap1, gap2, again).1.value.Acquired?
    ensures var (d, r) := Reserved(db, c, until, gap1, gap2, again);
            var own := c.(commandId := r.value.commandId, leaseToken := r.value.leaseToken);
            && Inv(d)
            && (exists i :: WaitsFor(d, i, own)
                  && (Complete(d.keys[i].body.terms) ==> r.value.terms == d.keys[i].body.terms))
            && (r.value.reconcile <==> SlotTaken(db, c))
  {
    SlotTakenExactly(db, c);
    var (d, r) := Reserved(db, c, until, gap1, gap2, again);
    var own := c.(commandId := r.value.commandId, leaseToken := r.value.leaseToken);
    if SlotTaken(db, c) {
      var i :| i in db.keys && SlotRow(db.keys[i], c);
      LaterReservation(db, i, c, until, gap1, gap2, again);
      LaterAcquired(db, i, c, until, gap1, gap2, again);
      assert WaitsFor(d, i, own);
    } else {
      FirstReservation(db, c, until, gap1, gap2, again);
      InsertPendingKeeps(db, c, until);
      assert WaitsFor(d, db.nextKey, own);
    }
  }

  lemma LaterAcquired(db: Db, i: nat, c: Command, until: nat, gap1: seq<Step>, gap2: seq<Step>, again: nat)
    requires Inv(db) && CommandError(c).None? && i in db.keys && SlotRow(db.keys[i], c)
    requires var r := Reserved(db, c, until, gap1, gap2, again).1; r.Ok? && r.value.Acquired?
    ensures var d := Run(db, gap1);
            var e := Run(d, gap2);
            && i in d.keys && i in e.keys && d.keys[i].digest == Some(c.digest)
            && d.keys[i].body.Pending? && d.keys[i].body.leaseExpires <= d.now
            && e.keys[i].body.Pending? && e.keys[i].body.leaseExpires <= e.now
            && Inv(Reserved(db, c, until, gap1, gap2, again).0)
  {
    TakenSlotStays(db, i, gap1);
    var d := Run(db, gap1);
    TakenSlotStays(d, i, gap2);
    SlotRowIsFound(db, c, i);
    SelectByRow(d, i, c);
    ReclaimByRow(Run(d, gap2), i, c, again);
    ReclaimKeeps(Run(d, gap2), i, c.leaseToken, again);
  }

  /* ---------------- finalize ---------------- */

  /** The command is valid, and the provider's id and both row ids are there. */
  predicate ValidDelivery(f: Delivery) {
    CommandError(f.command).None? && f.invitationId != "" && f.eventId != "" && f.outboxId != ""
  }

  ghost predicate SomeRowWaits(db: Db, c: Command) { exists i :: WaitsFor(db, i, c) }

  predicate IdsFree(db: Db, f: Delivery) { f.eventId !in db.events && f.outboxId !in db.outbox }

  lemma WaitingIsHeld(db: Db, c: Command, i: nat)
    requires UniqueSlots(db.keys) && WaitsFor(db, i, c)
    ensures FindHeld(db, c) == Some(i)
  {
    SlotRowIsFound(db, c, i);
  }

  lemma HeldIsWaiting(db: Db, c: Command)
    requires UniqueSlots(db.keys)
    ensures FindHeld(db, c).Some? <==> SomeRowWaits(db, c)
  {
    if FindHeld(db, c).Some? {
      assert WaitsFor(db, FindHeld(db, c).value, c);
    }
    if i :| WaitsFor(db, i, c) {
      WaitingIsHeld(db, c, i);
    }
  }

  /** The receipt names the command, the provider's answer and the three rows written for it. */
  predicate ReceiptOf(r: InviteReceipt, f: Delivery, auditId: nat, replayed: bool) {
    && r.commandId == f.command.commandId && r.invitationId == f.invitationId && r.providerStatus == f.providerStatus
    && SameTerms(r.terms, f.command.terms) && r.workspace == f.command.workspace
    && r.eventId == f.eventId && r.auditId == auditId && r.outboxId == f.outboxId && r.watermark == f.watermark
    && r.replayed == replayed
  }

  /** Row `i` is delivered under this receipt, and event, audit row and outbox row are there and name each other. */
  ghost predicate DeliveredAs(db: Db, d: Db, i: nat, f: Delivery) {
    var c := f.command;
    && i in db.keys && i in d.keys && d.keys[i].status == Some(201) && d.keys[i].body.Delivered?
    && ReceiptOf(d.keys[i].body.invite, f, db.nextAudit, false)
    && d.keys[i] == db.keys[i].(status := Some(201), body := d.keys[i].body)
    && d == db.(
         keys := db.keys[i := d.keys[i]],
         events := db.events[f.eventId := Event(c.workspace, c.actor, InviteDelivered)],
         audits := db.audits[db.nextAudit :=
           Audit(c.workspace, c.actor, InviteDelivered, f.eventId, c.commandId, Some(c.digest))],
         nextAudit := db.nextAudit + 1,
         outbox := db.outbox[f.outboxId :=
           Outbox(c.workspace, InviteDelivered, c.commandId, f.eventId, db.nextAudit, c.digest)])
  }

  /**
   Exactly when a finalize writes: a valid delivery, a row that waits for its command, both row ids free.
   Then the row is delivered and the three rows are there; otherwise no table changes.
   */
  lemma FinalizeExactly(db: Db, f: Delivery)
    requires Inv(db)
    ensures var d := Finalize(db, f);
            && (d != db <==> ValidDelivery(f) && SomeRowWaits(db, f.command) && IdsFree(db, f))
            && (d != db ==> exists i :: WaitsFor(db, i, f.command) && DeliveredAs(db, d, i, f))
  {
    HeldIsWaiting(db, f.command);
    if Finalizes(db, f) {
      var i := FindHeld(db, f.command).value;
      assert WaitsFor(db, i, f.command);
      assert DeliveredAs(db, Finalize(db, f), i, f);
    }
  }

  /** What it answers: its receipt, the error, or nothing of its own so that it must read back. */
  lemma FinalizeAnswersExactly(db: Db, f: Delivery)
    requires Inv(db) && ValidDelivery(f) && f.command.terms.clerkRole != ""
    ensures var r := FinalizeAnswer(db, f);
            && (r.None? <==> !SomeRowWaits(db, f.command))
            && (SomeRowWaits(db, f.command) && !IdsFree(db, f) ==> r == Some(Err(DuplicateRow)))
            && (SomeRowWaits(db, f.command) && IdsFree(db, f) ==>
                  r.value.Ok? && ReceiptOf(r.value.value, f, db.nextAudit, false))
  {
    HeldIsWaiting(db, f.command);
    if i :| WaitsFor(db, i, f.command) {
      TrimmedEmailStays(f.command.terms.email);
    }
  }

  lemma TrimmedEmailStays(email: string)
    ensures Lower(Trim(email)) == "" <==> Trim(email) == ""
  {
  }

  /**
   What a finalize call answers and leaves: its receipt and the delivered row; the database's error; or, when
   no row waits for it, whatever the slot's row has become. A command without a provider role delivers and
   is then told that its receipt is incomplete.
   */
  lemma FinalizeCallAnswers(db: Db, f: Delivery, gap: seq<Step>)
    requires Inv(db) && ValidDelivery(f)
    ensures var (d, r) := Finalized(db, f, gap);
            var waits := SomeRowWaits(db, f.command);
            && (waits && !IdsFree(db, f) ==> d == db && r == Err(DuplicateRow))
            && (waits && IdsFree(db, f) ==>
                  (exists i :: WaitsFor(db, i, f.command) && DeliveredAs(db, d, i, f))
                  && if f.command.terms.clerkRole == "" then r == Err(AtomicityFailed)
                     else r.Ok? && ReceiptOf(r.value, f, db.nextAudit, false))
            && (!waits ==> d == Run(db, gap) && ReadsBack(d, f.command, r))
  {
    HeldIsWaiting(db, f.command);
    if SomeRowWaits(db, f.command) {
      HolderIsAnswered(db, f, gap);
    } else {
      RunKeepsInv(db, gap);
      ReadBackExactly(Run(db, gap), f.command);
    }
  }

  lemma HolderIsAnswered(db: Db, f: Delivery, gap: seq<Step>)
    requires Inv(db) && ValidDelivery(f) && SomeRowWaits(db, f.command)
    ensures var (d, r) := Finalized(db, f, gap);
            if !IdsFree(db, f) then d == db && r == Err(DuplicateRow)
            else
              && d == Finalize(db, f) && d != db
              && if f.command.terms.clerkRole == "" then r == Err(AtomicityFailed)
                 else r.Ok? && ReceiptOf(r.value, f, db.nextAudit, false)
  {
    HeldIsWaiting(db, f.command);
    FinalizeExactly(db, f);
    TrimmedEmailStays(f.command.terms.email);
  }

  /** The delivered row of the slot answers its receipt as a replay; anything else is no result. */
  ghost predicate ReadsBack(d: Db, c: Command, r: Result<InviteReceipt, Error>) {
    && (forall i | i in d.keys && SlotRow(d.keys[i], c) ::
          if d.keys[i].digest == Some(c.digest) && d.keys[i].body.Delivered?
            && d.keys[i].body.invite.terms.clerkRole != "" then
            r.Ok? && r.value.replayed && r.value == d.keys[i].body.invite.(replayed := true)
          else r == Err(AtomicityFailed))
    && (!SlotTaken(d, c) ==> r == Err(AtomicityFailed))
  }

  lemma ReadBackExactly(d: Db, c: Command)
    requires Inv(d) && c.route == InviteRoute
    ensures ReadsBack(d, c, ReadBack(d, c))
  {
    SlotTakenExactly(d, c);
    forall i | i in d.keys && SlotRow(d.keys[i], c) ensures FindCommand(d, c) == Some(i) {
      SlotRowIsFound(d, c, i);
      assert WellFormedRow(d.keys[i]);
    }
  }

  /** The step takes the lease of row `i`, or sends a delivery to the command's slot. */
  predicate Disturbs(s: Step, i: nat, c: Command) {
    || (s.InviteReclaim? && s.id == i)
    || (s.InviteFinalize? && s.delivery.command.workspace == c.workspace && s.delivery.command.actor == c.actor
        && s.delivery.command.route == c.route && s.delivery.command.key == c.key)
  }

  lemma StepKeepsWaiting(db: Db, s: Step, i: nat, c: Command)
    requires Inv(db) && WaitsFor(db, i, c) && !Disturbs(s, i, c)
    ensures WaitsFor(Exec(db, s), i, c) && Exec(db, s).keys[i].body.terms == db.keys[i].body.terms
  {
    assert WellFormedRow(db.keys[i]) && i < db.nextKey;
    if IsInviteStep(s) {
      InviteStepKeepsWaiting(db, s, i, c);
    } else {
      OtherStepKeepsPending(db, s, i);
    }
  }

  lemma InviteStepKeepsWaiting(db: Db, s: Step, i: nat, c: Command)
    requires UniqueSlots(db.keys) && i < db.nextKey && WaitsFor(db, i, c) && !Disturbs(s, i, c) && IsInviteStep(s)
    ensures WaitsFor(Exec(db, s), i, c) && Exec(db, s).keys[i].body.terms == db.keys[i].body.terms
  {
    if s.InviteFinalize? {
      OtherDeliveryKeepsWaiting(db, s.delivery, i, c);
    }
  }

  lemma OtherDeliveryKeepsWaiting(db: Db, f: Delivery, i: nat, c: Command)
    requires WaitsFor(db, i, c) && !Disturbs(InviteFinalize(f), i, c)
    ensures WaitsFor(Finalize(db, f), i, c) && Finalize(db, f).keys[i] == db.keys[i]
  {
    if Finalizes(db, f) {
      assert FindHeld(db, f.command) != Some(i);
    }
  }

  lemma {:induction false} RunKeepsWaiting(db: Db, steps: seq<Step>, i: nat, c: Command)
    requires Inv(db) && WaitsFor(db, i, c)
    requires forall k | 0 <= k < |steps| :: !Disturbs(steps[k], i, c)
    ensures WaitsFor(Run(db, steps), i, c) && Run(db, steps).keys[i].body.terms == db.keys[i].body.terms
    decreases |steps|
  {
    if steps != [] {
      StepKeepsWaiting(db, steps[0], i, c);
      StepKeepsInv(db, steps[0]);
      RunKeepsWaiting(Exec(db, steps[0]), steps[1..], i, c);
    }
  }

  /** A row that waits is completed by its delivery after any steps that leave it alone. */
  lemma WaitingIsDelivered(d: Db, i: nat, steps: seq<Step>, f: Delivery)
    requires Inv(d) && WaitsFor(d, i, f.command) && ValidDelivery(f) && IdsFree(Run(d, steps), f)
    requires forall k | 0 <= k < |steps| :: !Disturbs(steps[k], i, f.command)
    ensures var e := Run(d, steps); WaitsFor(e, i, f.command) && DeliveredAs(e, Finalize(e, f), i, f)
  {
    RunKeepsWaiting(d, steps, i, f.command);
    RunKeepsInv(d, steps);
    WaitingIsHeld(Run(d, steps), f.command, i);
  }

  /**
   A reservation that was acquired can be finalized under the ids it was answered, now and after any steps
   that neither reclaim its row nor deliver to its slot: with free row ids the key is completed.
   */
  lemma HolderCompletes(db: Db, c: Command, until: nat, gap1: seq<Step>, gap2: seq<Step>, again: nat,
                        steps: seq<Step>, f: Delivery)
    requires Inv(db) && Reserved(db, c, until, gap1, gap2, again).1.Ok? && ValidDelivery(f)
    requires var r := Reserved(db, c, until, gap1, gap2, again).1.value;
             && r.Acquired?
             && f.command == c.(commandId := r.commandId, leaseToken := r.leaseToken, terms := f.command.terms)
    ensures var d := Reserved(db, c, until, gap1, gap2, again).0;
            var e := Run(d, steps);
            exists i :: WaitsFor(d, i, f.command)
              && ((forall k | 0 <= k < |steps| :: !Disturbs(steps[k], i, f.command)) && IdsFree(e, f) ==>
                    DeliveredAs(e, Finalize(e, f), i, f))
  {
    var (d, r) := Reserved(db, c, until, gap1, gap2, again);
    AcquiredMeansHolding(db, c, until, gap1, gap2, again);
    var i :| WaitsFor(d, i, c.(commandId := r.value.commandId, leaseToken := r.value.leaseToken));
    assert WaitsFor(d, i, f.command);
    if (forall k | 0 <= k < |steps| :: !Disturbs(steps[k], i, f.command)) && IdsFree(Run(d, steps), f) {
      WaitingIsDelivered(d, i, steps, f);
    }
  }

  /* ---------------- failure ---------------- */

  /**
   Exactly when a failure report writes: the fields it needs are there, a row waits for its command, its
   event id is free. Then the lease ends now, with the error noted, and one failure event and audit row.
   */
  lemma FailureExactly(db: Db, f: Failure)
    requires Inv(db)
    ensures var (d, c) := (RecordFailure(db, f), f.command);
            && (d != db <==>
                  && c.workspace != "" && Trim(c.workspace) != "" && c.actor != "" && c.commandId != ""
                     && c.leaseToken != ""
                  && Trim(c.terms.email) != "" && f.eventId != "" && SomeRowWaits(db, c) && f.eventId !in db.events)
            && (d != db ==> exists i :: WaitsFor(db, i, c) && FailedAs(db, d, i, f))
  {
    HeldIsWaiting(db, f.command);
    if RecordFailure(db, f) != db {
      var i := FindHeld(db, f.command).value;
      assert WaitsFor(db, i, f.command);
      assert FailedAs(db, RecordFailure(db, f), i, f);
    }
    FailureWrites(db, f);
  }

  lemma FailureWrites(db: Db, f: Failure)
    ensures !FailureSkipped(f) && FindHeld(db, f.command).Some? && f.eventId !in db.events
            ==> f.eventId in RecordFailure(db, f).events
  {
  }

  /** The error text is cut at 120 characters, and there is always one. */
  predicate ErrorNoted(noted: Option<string>, code: string) {
    var s := if code == "" then "INVITE_DELIVERY_FAILED" else code;
    noted.Some? && |noted.value| <= 120 && noted.value <= s && (|s| <= 120 ==> noted.value == s)
      && (|s| > 120 ==> |noted.value| == 120)
  }

  ghost predicate FailedAs(db: Db, d: Db, i: nat, f: Failure) {
    var c := f.command;
    && WaitsFor(db, i, c) && WaitsFor(d, i, c)
    && d.keys[i].body.failed && d.keys[i].body.leaseExpires == db.now && d.keys[i].body.terms == db.keys[i].body.terms
    && ErrorNoted(d.keys[i].body.lastError, f.errorCode) && d.keys[i].body.lastAttempt == Some(db.now)
    && d == db.(
         keys := db.keys[i := d.keys[i]],
         events := db.events[f.eventId := Event(c.workspace, c.actor, InviteFailed)],
         audits := db.audits[db.nextAudit := Audit(c.workspace, c.actor, InviteFailed, f.eventId, c.commandId, None)],
         nextAudit := db.nextAudit + 1)
  }

  /** After a failure report another worker's reserve of the key takes it over at once. */
  lemma FailureFreesTheKey(db: Db, f: Failure, c: Command, until: nat, again: nat)
    requires Inv(db) && RecordFailure(db, f) != db && CommandError(c).None?
    requires c.workspace == f.command.workspace && c.actor == f.command.actor && c.route == f.command.route
             && c.key == f.command.key && c.digest == f.command.digest
    ensures var r := Reserved(RecordFailure(db, f), c, until, [], [], again).1;
            && r.Ok? && r.value.Acquired? && r.value.reconcile && r.value.leaseToken == c.leaseToken
            && r.value.commandId == f.command.commandId
  {
    FailureExactly(db, f);
    RecordFailureKeeps(db, f);
    var d := RecordFailure(db, f);
    var i :| WaitsFor(db, i, f.command) && FailedAs(db, d, i, f);
    assert SlotRow(d.keys[i], c);
    LaterReservation(d, i, c, until, [], [], again);
  }

  /* ---------------- steps of a run ---------------- */

  /** A step of a run does what the call made of it does when nobody else is there. */
  lemma ReserveStepsAreCalls(db: Db, c: Command, until: nat, id: nat)
    requires Inv(db)
    ensures Run(db, [InviteInsert(c, until)])
            == if CommandError(c).None? && !SlotTaken(db, c) then Reserved(db, c, until, [], [], until).0 else db
    ensures var d := Run(db, [InviteReclaim(id, c.leaseToken, until)]);
            if id in db.keys && db.keys[id].body.Pending? && db.keys[id].body.leaseExpires <= db.now then
              && id in d.keys && d.keys[id].body.Pending? && d.keys[id].body.leaseToken == c.leaseToken
              && d.keys[id].body.leaseExpires == until
            else d == db
  {
    SlotTakenExactly(db, c);
    OneStep(db, InviteInsert(c, until));
    OneStep(db, InviteReclaim(id, c.leaseToken, until));
    ReclaimStep(db, id, c.leaseToken, until);
  }

  lemma FinalizeStepIsItsCall(db: Db, f: Delivery)
    requires Inv(db) && ValidDelivery(f)
    ensures Run(db, [InviteFinalize(f)]) == Finalized(db, f, []).0
  {
    OneStep(db, InviteFinalize(f));
    FinalizeStep(db, f);
  }

  lemma FailureStepIsItsCall(db: Db, e: Failure)
    ensures Run(db, [InviteFail(e)]) == RecordFailure(db, e)
  {
    OneStep(db, InviteFail(e));
  }

  lemma ClockStep(db: Db, dt: nat)
    ensures Run(db, [Tick(dt)]) == db.(now := db.now + dt)
  {
    OneStep(db, Tick(dt));
  }

  lemma OneStep(db: Db, s: Step)
    ensures Run(db, [s]) == Exec(db, s)
  {
    assert [s][1..] == [] && Run(db, [s]) == Run(Exec(db, s), []);
  }

  lemma ReclaimStep(db: Db, id: nat, token: string, until: nat)
    requires Inv(db)
    ensures var d := Reclaim(db, id, token, until);
            if id in db.keys && db.keys[id].body.Pending? && db.keys[id].body.leaseExpires <= db.now then
              && id in d.keys && d.keys[id].body.Pending? && d.keys[id].body.leaseToken == token
              && d.keys[id].body.leaseExpires == until
            else d == db
  {
    if id in db.keys {
      assert WellFormedRow(db.keys[id]);
    }
  }

  lemma FinalizeStep(db: Db, f: Delivery)
    requires Inv(db) && ValidDelivery(f)
    ensures Finalized(db, f, []).0 == Finalize(db, f)
  {
  }

  /** Once the clock has reached a lease's expiry, another worker's reserve takes the key over. */
  lemma ExpiredLeaseIsTaken(db: Db, i: nat, held: Command, c: Command, dt: nat, until: nat, again: nat)
    requires Inv(db) && WaitsFor(db, i, held) && CommandError(c).None? && SlotRow(db.keys[i], c)
             && c.digest == held.digest
    requires db.keys[i].body.leaseExpires <= db.now + dt
    ensures var r := Reserved(Run(db, [Tick(dt)]), c, until, [], [], again).1;
            && r.Ok? && r.value.Acquired? && r.value.reconcile && r.value.commandId == held.commandId
            && r.value.leaseToken == c.leaseToken
  {
    ClockStep(db, dt);
    TickKeeps(db, dt);
    ExpiredIsTaken(db.(now := db.now + dt), i, held, c, until, again);
  }

  lemma ExpiredIsTaken(db: Db, i: nat, held: Command, c: Command, until: nat, again: nat)
    requires Inv(db) && WaitsFor(db, i, held) && CommandError(c).None? && SlotRow(db.keys[i], c)
             && c.digest == held.digest
    requires db.keys[i].body.leaseExpires <= db.now
    ensures var r := Reserved(db, c, until, [], [], again).1;
            && r.Ok? && r.value.Acquired? && r.value.reconcile && r.value.commandId == held.commandId
            && r.value.leaseToken == c.leaseToken
  {
    assert WellFormedRow(db.keys[i]);
    assert Run(Run(db, []), []) == db;
    LaterReservation(db, i, c, until, [], [], again);
  }
}
