/** What the readiness writers answer and leave in the rows, column by column. */
module ReadinessEffects {
  import opened Wrappers
  import opened Text
  import opened ReadinessStore
  import opened ReadinessTheorems

  /* ---------------- the save ---------------- */

  predicate ValidSave(s: Save) {
    && s.workspace != "" && s.user != "" && s.email != "" && 0 < |s.client| <= 200 && |s.digest| == 64
    && forall i | 0 <= i < 64 :: '0' <= s.digest[i] <= '9' || 'a' <= s.digest[i] <= 'f'
  }

  /** An audit receipt of this workspace, user and client request. */
  predicate ReceiptFor(db: Db, i: nat, s: Save) {
    && i in db.receipts && db.receipts[i].workspace == s.workspace && db.receipts[i].actor == s.user
    && db.receipts[i].client == s.client
  }

  ghost predicate ReceiptThere(db: Db, s: Save) { exists i :: ReceiptFor(db, i, s) }

  lemma ReceiptIsFound(db: Db, s: Save)
    requires OneReceiptPerKey(db)
    ensures FindReceipt(db, s).Some? <==> ReceiptThere(db, s)
    ensures forall i: nat | ReceiptFor(db, i, s) :: FindReceipt(db, s) == Some(i)
  {
    forall i: nat | ReceiptFor(db, i, s) ensures FindReceipt(db, s) == Some(i) {
      StoredReceiptIsFound(db, s, i);
    }
    if FindReceipt(db, s).Some? {
      assert ReceiptFor(db, FindReceipt(db, s).value, s);
    }
  }

  /** The row picked is a newest one of the workspace, if it has any. */
  predicate PicksRow(db: Db, workspace: string, p: Option<string>) {
    && (p.None? ==> forall i | i in db.rows :: db.rows[i].workspace != Some(workspace))
    && (p.Some? ==> p.value in db.rows && db.rows[p.value].workspace == Some(workspace))
    && (p.Some? ==> forall i | i in db.rows && db.rows[i].workspace == Some(workspace) ::
                      db.rows[i].updated <= db.rows[p.value].updated)
  }

  /** An approved or invited request of this person to this workspace, compared in lower case. */
  predicate Invites(db: Db, q: string, s: Save) {
    && q in db.requests && db.requests[q].invited == Some(s.workspace) && db.requests[q].accepted
    && Lower(db.requests[q].email) == Lower(s.email)
  }

  predicate PicksRequest(db: Db, s: Save, p: Option<string>) {
    && (p.None? ==> forall q | q in db.requests :: !Invites(db, q, s))
    && (p.Some? ==> Invites(db, p.value, s))
    && (p.Some? ==> forall q | q in db.requests && Invites(db, q, s) ::
        db.requests[q].updated <= db.requests[p.value].updated)
  }

  /** What the statement may pick: a row first, and a request only where there is none. */
  lemma PicksExactly(db: Db, s: Save, p: Picks)
    ensures Legal(db, s, p) <==>
            PicksRow(db, s.workspace, p.row) && (p.row.Some? ==> p.request.None?)
              && (p.row.None? ==> PicksRequest(db, s, p.request))
  {
    assert forall i | i in db.rows :: BelongsTo(db.rows[i], s.workspace) <==> db.rows[i].workspace == Some(s.workspace);
    assert forall q | q in db.requests :: Candidate(db.requests[q], s) <==> Invites(db, q, s);
  }

  /** The request the save ends on: the picked row's, else the picked one, else a new one. */
  predicate EndsOnRequest(db: Db, s: Save, p: Picks, q: string) {
    && (p.row.Some? ==> p.row.value in db.rows && q == db.rows[p.row.value].request)
    && (p.row.None? && p.request.Some? ==> q == p.request.value)
    && (p.row.None? && p.request.None? ==> q == s.requestId && q !in db.requests)
  }

  /** The row it ends on: the request's, else a new one. */
  predicate EndsOnRow(db: Db, s: Save, q: string, r: string) {
    || (r in db.rows && db.rows[r].request == q)
    || (r == s.rowId && r !in db.rows && forall i | i in db.rows :: db.rows[i].request != q)
  }

  /** The row holds the save: all its answers, its address, workspace and time; the first user stays. */
  predicate HoldsSave(before: Option<Row>, row: Row, s: Save) {
    var p := row.profile;
    && p.account == s.profile.account && p.personal == s.profile.personal && p.answers == s.profile.answers
    && p.consent == s.profile.consent && p.company == s.profile.company && p.domain == s.profile.domain
    && p.country == s.profile.country && p.level == s.profile.level && p.deepCheck == s.profile.deepCheck
    && p.enrichment == s.profile.enrichment
    && p.source == (if s.profile.source.Some? then s.profile.source else Some("inapp-readiness-profile"))
    && row.email == s.email && row.workspace == Some(s.workspace) && row.updated == s.at
    && row.user == (if before.Some? && before.value.user.Some? then before.value.user else Some(s.user))
  }

  /** The request: linked to person and workspace where it names none yet, or made for them. */
  predicate RequestLinked(before: Option<Request>, after: Request, s: Save) {
    && after.updated == s.at
    && (before.None? ==>
          after == Request(s.email, Some(s.workspace), true, Some(s.user), None, None, s.at))
    && (before.Some? ==>
          && after == before.value.(user := after.user, invited := after.invited, updated := s.at)
          && after.user == (if before.value.user.Some? then before.value.user else Some(s.user))
          && after.invited == (if before.value.invited.Some? then before.value.invited else Some(s.workspace)))
  }

  function Stored<T>(m: map<string, T>, k: string): Option<T> { if k in m then Some(m[k]) else None }

  ghost predicate SavedOn(db: Db, d: Db, s: Save, q: string, r: string) {
    && q in d.requests && r in d.rows && d.rows[r].request == q
    && HoldsSave(Stored(db.rows, r), d.rows[r], s) && RequestLinked(Stored(db.requests, q), d.requests[q], s)
    && d == Db(db.requests[q := d.requests[q]], db.rows[r := d.rows[r]],
               db.receipts[db.nextReceipt := Receipt(s.workspace, s.user, s.client, s.digest, r)], db.nextReceipt + 1)
  }

  /**
   When a save writes and what: a valid one without a receipt of its client request, whose request and row
   are there or have their new id free. The row named by the answer then holds the save, and nothing but
   that row, its request and the receipt has changed.
   */
  lemma SaveExactly(db: Db, s: Save, p: Picks)
    requires Inv(db) && Legal(db, s, p)
    ensures var d, a := SaveAnswers(db, s, p), Answer(db, s, p);
            var works := ValidSave(s) && !ReceiptThere(db, s) && exists q, r ::
              EndsOnRequest(db, s, p, q) && EndsOnRow(db, s, q, r);
            && (works <==> d != db)
            && (works ==>
                  && a.Ok? && !a.value.replayed && a.value.receipt == db.nextReceipt && a.value.digest == s.digest
                  && a.value.row in d.rows && SavedOn(db, d, s, d.rows[a.value.row].request, a.value.row)
                  && EndsOnRequest(db, s, p, d.rows[a.value.row].request)
                  && EndsOnRow(db, s, d.rows[a.value.row].request, a.value.row))
            && (!ValidSave(s) ==> a == Err(Validation))
            && (ValidSave(s) && !ReceiptThere(db, s) && !works ==> a == Err(DuplicateRow))
  {
    ReceiptIsFound(db, s);
    if Writes(db, s, p) {
      SaveWrites(db, s, p);
    } else if ValidSave(s) && !ReceiptThere(db, s) {
      BlockedSave(db, s, p);
    }
  }

  lemma SaveWrites(db: Db, s: Save, p: Picks)
    requires Inv(db) && Legal(db, s, p) && Writes(db, s, p)
    ensures var d, q, r := SaveAnswers(db, s, p), TargetRequest(db, s, p), TargetRow(db, s, p);
            && EndsOnRequest(db, s, p, q) && EndsOnRow(db, s, q, r) && SavedOn(db, d, s, q, r)
            && Answer(db, s, p) == Ok(Revision(r, db.nextReceipt, false, s.digest)) && db.nextReceipt !in db.receipts
  {
    SaveKeepsRowsUnique(db, s, p);
  }

  lemma BlockedSave(db: Db, s: Save, p: Picks)
    requires Inv(db) && Legal(db, s, p) && ValidSave(s) && FindReceipt(db, s).None? && !Writes(db, s, p)
    ensures SaveError(db, s, p) == Some(DuplicateRow)
    ensures forall q, r :: !(EndsOnRequest(db, s, p, q) && EndsOnRow(db, s, q, r))
  {
    forall q | EndsOnRequest(db, s, p, q) ensures q == TargetRequest(db, s, p) {
    }
  }

  /* ---------------- until another writer comes ---------------- */

  /** The step writes onto this row: a save that ends on it, a registration or provisioning of its request. */
  ghost predicate Touches(db: Db, t: Step, i: string)
    requires StepLegal(db, t) && i in db.rows
  {
    match t
    case Saves(s, p) => SaveAnswers(db, s, p) != db && Answer(db, s, p).Ok? && Answer(db, s, p).value.row == i
    case Registers(g) => g.request != "" && g.request == db.rows[i].request
    case AttachesAll(a) => db.rows[i].workspace.None? && Lower(db.rows[i].email) == Lower(a.email)
    case Provisions(v) => v.request != "" && v.request == db.rows[i].request
  }

  ghost predicate NeverTouched(db: Db, steps: seq<Step>, i: string)
    requires RunLegal(db, steps)
    decreases |steps|
  {
    steps == [] || (i in db.rows && !Touches(db, steps[0], i) && NeverTouched(Exec(db, steps[0]), steps[1..], i))
  }

  lemma UntouchedStays(db: Db, t: Step, i: string)
    requires Inv(db) && StepLegal(db, t) && i in db.rows && !Touches(db, t, i)
    ensures i in Exec(db, t).rows && Exec(db, t).rows[i] == db.rows[i]
  {
    match t
    case Saves(s, p) =>
      if Writes(db, s, p) {
        SaveExactly(db, s, p);
        SaveWrites(db, s, p);
      }
    case Registers(_) =>
    case AttachesAll(_) =>
    case Provisions(_) =>
  }

  lemma {:induction false} UntouchedRun(db: Db, steps: seq<Step>, i: string)
    requires Inv(db) && RunLegal(db, steps) && i in db.rows && NeverTouched(db, steps, i)
    ensures i in Run(db, steps).rows && Run(db, steps).rows[i] == db.rows[i]
    decreases |steps|
  {
    if steps != [] {
      UntouchedStays(db, steps[0], i);
      StepKeepsInv(db, steps[0]);
      UntouchedRun(Exec(db, steps[0]), steps[1..], i);
    }
  }

  /** Until another writer touches it, the row named by a new revision holds the answers of its save. */
  lemma SavedAnswersStay(db: Db, s: Save, p: Picks, steps: seq<Step>)
    requires Inv(db) && Legal(db, s, p) && SaveAnswers(db, s, p) != db && RunLegal(SaveAnswers(db, s, p), steps)
    requires Answer(db, s, p).Ok? ==> NeverTouched(SaveAnswers(db, s, p), steps, Answer(db, s, p).value.row)
    ensures var e, a := Run(SaveAnswers(db, s, p), steps), Answer(db, s, p);
            a.Ok? && a.value.row in e.rows && HoldsSave(Stored(db.rows, a.value.row), e.rows[a.value.row], s)
  {
    SaveExactly(db, s, p);
    SaveKeepsInv(db, s, p);
    UntouchedRun(SaveAnswers(db, s, p), steps, Answer(db, s, p).value.row);
  }

  /* ---------------- the other writers ---------------- */

  /** A registration over an old row: required answers replaced, optional ones kept where it brings none. */
  predicate RegisteredOver(old': Profile, p: Profile, g: Profile) {
    && p.account == g.account && p.personal == g.personal && p.answers == g.answers && p.consent == g.consent
    && p.company == (if g.company.Some? then g.company else old'.company)
    && p.domain == (if g.domain.Some? then g.domain else old'.domain)
    && p.country == (if g.country.Some? then g.country else old'.country)
    && p.level == (if g.level.Some? then g.level else old'.level)
    && p.deepCheck == (if g.deepCheck.Some? then g.deepCheck else old'.deepCheck)
    && p.enrichment == (if g.enrichment.Some? then g.enrichment else old'.enrichment)
    && p.source == old'.source
  }

  ghost predicate RegisteredOn(db: Db, d: Db, g: Registration, r: string) {
    && r in d.rows && g.request in d.requests && g.request in db.requests
    && d.requests[g.request] == db.requests[g.request].(
         account := Some(g.profile.account), assessment := Some(r), updated := g.at)
    && d == db.(rows := db.rows[r := d.rows[r]], requests := db.requests[g.request := d.requests[g.request]])
    && (r in db.rows ==>
          && db.rows[r].request == g.request && RegisteredOver(db.rows[r].profile, d.rows[r].profile, g.profile)
          && d.rows[r] == db.rows[r].(profile := d.rows[r].profile, updated := g.at))
    && (r !in db.rows ==> r == g.rowId && d.rows[r] == Row(g.request, None, None, g.email, g.profile, g.at))
  }

  /** A registration writes one row and its request's link, if the request is there and a new row's id is free. */
  lemma RegistrationExactly(db: Db, g: Registration)
    requires Inv(db)
    ensures var d := Register(db, g);
            var works := g.request != "" && g.email != "" && g.request in db.requests
                         && (g.rowId !in db.rows || exists r :: r in db.rows && db.rows[r].request == g.request);
            && (!works ==> d == db)
            && (works ==> exists r :: RegisteredOn(db, d, g, r))
  {
    var w := RegisteredRow(db, g);
    if w.Some? {
      assert RegisteredOn(db, Register(db, g), g, w.value.0);
    }
  }

  /** Attaching and provisioning, row by row. */
  lemma RepointingExactly(db: Db, a: Attachment, v: Provisioning, i: string)
    requires i in db.rows
    ensures var d := Attach(db, a);
            var mine := a.email != "" && a.workspace != "" && Lower(db.rows[i].email) == Lower(a.email)
              && db.rows[i].workspace.None?;
            && d.rows.Keys == db.rows.Keys && d == db.(rows := d.rows)
            && d.rows[i] == if mine then
                 db.rows[i].(workspace := Some(a.workspace), updated := a.at,
                             user := if db.rows[i].user.Some? then db.rows[i].user else a.user)
               else db.rows[i]
    ensures var d := Provision(db, v);
            && d.rows.Keys == db.rows.Keys && d.requests.Keys == db.requests.Keys
            && d == db.(rows := d.rows, requests := d.requests)
            && d.rows[i] == (if v.request != "" && db.rows[i].request == v.request then
                               db.rows[i].(workspace := Some(v.workspace), updated := v.at)
                             else db.rows[i])
            && forall q | q in db.requests ::
                 d.requests[q] == if v.request != "" && q == v.request then
                   db.requests[q].(invited := Some(v.workspace), updated := v.at,
                                   user := if db.requests[q].user.Some? then db.requests[q].user else Some(v.owner))
                 else db.requests[q]
  {
  }

  /** A step of a run does what the statement made of it does. */
  lemma ReadinessStepsAreStatements(db: Db, s: Save, p: Picks, g: Registration, a: Attachment, v: Provisioning)
    requires Legal(db, s, p)
    ensures RunLegal(db, [Saves(s, p)]) && Run(db, [Saves(s, p)]) == SaveAnswers(db, s, p)
    ensures RunLegal(db, [Registers(g)]) && Run(db, [Registers(g)]) == Register(db, g)
    ensures RunLegal(db, [AttachesAll(a)]) && Run(db, [AttachesAll(a)]) == Attach(db, a)
    ensures RunLegal(db, [Provisions(v)]) && Run(db, [Provisions(v)]) == Provision(db, v)
  {
    OneStep(db, Saves(s, p));
    OneStep(db, Registers(g));
    OneStep(db, AttachesAll(a));
    OneStep(db, Provisions(v));
  }

  lemma OneStep(db: Db, t: Step)
    requires StepLegal(db, t)
    ensures RunLegal(db, [t]) && Run(db, [t]) == Exec(db, t)
  {
    assert [t][1..] == [] && RunLegal(Exec(db, t), []) && Run(Exec(db, t), []) == Exec(db, t);
  }
}
