/**
 The writers of customer-readiness-store.ts, and the two updates of a provisioning run, over access
 requests, readiness rows and the audit log that serves as the save's ledger of client requests. Where
 the save picks the newest of several rows, the pick is part of the step: any newest row may be it.
 */
module ReadinessStore {
  import opened Wrappers
  import opened Text

  /** `accepted` stands for the statuses approved and invited. */
  datatype Request = Request(email: string, invited: Option<string>, accepted: bool, user: Option<string>,
                             account: Option<string>, assessment: Option<string>, updated: nat)

  /**
   What was answered: `answers` and `consent` are always replaced, a registration keeps an old value of the
   next six columns where it brings none, and never touches the source.
   */
  datatype Profile = Profile(
    account: string, personal: bool, answers: string, consent: string,
    company: Option<string>, domain: Option<string>, country: Option<string>, level: Option<int>,
    deepCheck: Option<string>, enrichment: Option<string>, source: Option<string>)

  datatype Row = Row(request: string, user: Option<string>, workspace: Option<string>, email: string, profile: Profile,
                     updated: nat)

  datatype Receipt = Receipt(workspace: string, actor: string, client: string, digest: string, row: string)

  datatype Db = Db(requests: map<string, Request>, rows: map<string, Row>, receipts: map<nat, Receipt>,
                   nextReceipt: nat)

  datatype Error = Validation | Conflict | Internal | DuplicateRow

  /** A save, with the ids made for it and the statement's time. */
  datatype Save = Save(workspace: string, user: string, email: string, client: string, digest: string, profile: Profile,
                       requestId: string, rowId: string, at: nat)

  datatype Revision = Revision(row: string, receipt: nat, replayed: bool, digest: string)

  predicate Invalid(s: Save) {
    || s.workspace == "" || s.user == "" || s.email == "" || s.client == "" || |s.client| > 200
    || !IsDigest(s.digest)
  }

  /* ---------------- what the statement reads ---------------- */

  function KeyOf(r: Receipt): (string, string, string) { (r.workspace, r.actor, r.client) }

  predicate ReceiptMatch(r: Receipt, s: Save) { KeyOf(r) == (s.workspace, s.user, s.client) }

  ghost function FindReceipt(db: Db, s: Save): (r: Option<nat>)
    ensures r.Some? ==> r.value in db.receipts && ReceiptMatch(db.receipts[r.value], s)
    ensures r.None? ==> forall i | i in db.receipts :: !ReceiptMatch(db.receipts[i], s)
  {
    if i :| i in db.receipts && ReceiptMatch(db.receipts[i], s) then Some(i) else None
  }

  predicate BelongsTo(r: Row, workspace: string) { r.workspace == Some(workspace) }

  /** The newest readiness row of the workspace, or none when it has no row. */
  predicate NewestRow(db: Db, workspace: string, pick: Option<string>) {
    match pick
    case None => forall i | i in db.rows :: !BelongsTo(db.rows[i], workspace)
    case Some(p) =>
      && p in db.rows && BelongsTo(db.rows[p], workspace)
      && forall i | i in db.rows && BelongsTo(db.rows[i], workspace) :: db.rows[i].updated <= db.rows[p].updated
  }

  predicate Candidate(r: Request, s: Save) {
    r.invited == Some(s.workspace) && Lower(r.email) == Lower(s.email) && r.accepted
  }

  /** The newest accepted request that invites this person to the workspace, or none. */
  predicate NewestRequest(db: Db, s: Save, pick: Option<string>) {
    match pick
    case None => forall i | i in db.requests :: !Candidate(db.requests[i], s)
    case Some(p) =>
      && p in db.requests && Candidate(db.requests[p], s)
      && forall i | i in db.requests && Candidate(db.requests[i], s) :: db.requests[i].updated <= db.requests[p].updated
  }

  datatype Picks = Picks(row: Option<string>, request: Option<string>)

  predicate Legal(db: Db, s: Save, p: Picks) {
    NewestRow(db, s.workspace, p.row) && if p.row.Some? then p.request.None? else NewestRequest(db, s, p.request)
  }

  ghost function FindRow(db: Db, request: string): (r: Option<string>)
    ensures r.Some? ==> r.value in db.rows && db.rows[r.value].request == request
    ensures r.None? ==> forall i | i in db.rows :: db.rows[i].request != request
  {
    if i :| i in db.rows && db.rows[i].request == request then Some(i) else None
  }

  /* ---------------- the save ---------------- */

  function TargetRequest(db: Db, s: Save, p: Picks): string
    requires p.row.Some? ==> p.row.value in db.rows
  {
    if p.row.Some? then db.rows[p.row.value].request
    else if p.request.Some? then p.request.value
    else s.requestId
  }

  function CreatesRequest(p: Picks): bool { p.row.None? && p.request.None? }

  ghost function TargetRow(db: Db, s: Save, p: Picks): string
    requires p.row.Some? ==> p.row.value in db.rows
  {
    var f := FindRow(db, TargetRequest(db, s, p));
    if f.Some? then f.value else s.rowId
  }

  ghost function SaveError(db: Db, s: Save, p: Picks): Option<Error>
    requires p.row.Some? ==> p.row.value in db.rows
  {
    if Invalid(s) then Some(Validation)
    else if FindReceipt(db, s).Some? then None
    else if CreatesRequest(p) && s.requestId in db.requests then Some(DuplicateRow)
    else if FindRow(db, TargetRequest(db, s, p)).None? && s.rowId in db.rows then Some(DuplicateRow)
    else None
  }

  const IN_APP := "inapp-readiness-profile"

  /** A save names itself as the source unless the caller does. */
  function SavedProfile(p: Profile): Profile { p.(source := Coalesce(p.source, Some(IN_APP))) }

  function SavedRow(old': Option<Row>, s: Save, request: string): Row {
    var user := if old'.Some? && old'.value.user.Some? then old'.value.user else Some(s.user);
    Row(request, user, Some(s.workspace), s.email, SavedProfile(s.profile), s.at)
  }

  function LinkedRequest(r: Request, s: Save): Request {
    r.(user := Coalesce(r.user, Some(s.user)), invited := Coalesce(r.invited, Some(s.workspace)), updated := s.at)
  }

  function NewRequest(s: Save): Request { Request(s.email, Some(s.workspace), true, Some(s.user), None, None, s.at) }

  ghost function Lookup<T>(m: map<string, T>, k: string): Option<T> { if k in m then Some(m[k]) else None }

  ghost predicate Writes(db: Db, s: Save, p: Picks)
    requires p.row.Some? ==> p.row.value in db.rows
  {
    SaveError(db, s, p).None? && FindReceipt(db, s).None?
  }

  ghost function SaveAnswers(db: Db, s: Save, p: Picks): Db
    requires p.row.Some? ==> p.row.value in db.rows
  {
    if !Writes(db, s, p) then db
    else
      var q, r := TargetRequest(db, s, p), TargetRow(db, s, p);
      db.(requests := if CreatesRequest(p) then db.requests[q := NewRequest(s)]
                      else if q in db.requests then db.requests[q := LinkedRequest(db.requests[q], s)]
                      else db.requests,
          rows := db.rows[r := SavedRow(Lookup(db.rows, r), s, q)],
          receipts := db.receipts[db.nextReceipt := Receipt(s.workspace, s.user, s.client, s.digest, r)],
          nextReceipt := db.nextReceipt + 1)
  }

  /** A repeat is answered from the audit row, as long as the readiness row is still the workspace's. */
  ghost function Answer(db: Db, s: Save, p: Picks): Result<Revision, Error>
    requires p.row.Some? ==> p.row.value in db.rows
  {
    if SaveError(db, s, p).Some? then Err(SaveError(db, s, p).value)
    else
      match FindReceipt(db, s)
      case None => Ok(Revision(TargetRow(db, s, p), db.nextReceipt, false, s.digest))
      case Some(i) =>
        var r := db.receipts[i];
        if r.row !in db.rows || !BelongsTo(db.rows[r.row], s.workspace) then Err(Internal)
        else if r.digest != s.digest then Err(Conflict)
        else Ok(Revision(r.row, i, true, s.digest))
  }

  /* ---------------- the other writers ---------------- */

  datatype Registration = Registration(request: string, email: string, profile: Profile, rowId: string, at: nat)

  function Registered(old': Profile, p: Profile): Profile {
    p.(company := Coalesce(p.company, old'.company), domain := Coalesce(p.domain, old'.domain),
       country := Coalesce(p.country, old'.country), level := Coalesce(p.level, old'.level),
       deepCheck := Coalesce(p.deepCheck, old'.deepCheck), enrichment := Coalesce(p.enrichment, old'.enrichment),
       source := old'.source)
  }

  /** The row a registration writes, or none where it is refused. */
  ghost function RegisteredRow(db: Db, g: Registration): Option<(string, Row)> {
    if g.request == "" || g.email == "" || g.request !in db.requests then None
    else
      var f := FindRow(db, g.request);
      if f.Some? then
        var r := db.rows[f.value];
        Some((f.value, r.(profile := Registered(r.profile, g.profile), updated := g.at)))
      else if g.rowId in db.rows then None
      else Some((g.rowId, Row(g.request, None, None, g.email, g.profile, g.at)))
  }

  /** The registration form's write: one row per request, its workspace left alone, and the request's link to it. */
  ghost function Register(db: Db, g: Registration): Db {
    var w := RegisteredRow(db, g);
    if w.None? then db
    else
      db.(rows := db.rows[w.value.0 := w.value.1],
          requests := db.requests[g.request := db.requests[g.request].(
            account := Some(g.profile.account), assessment := Some(w.value.0), updated := g.at)])
  }

  datatype Provisioning = Provisioning(request: string, workspace: string, owner: string, at: nat)

  predicate Repoints(r: Row, v: Provisioning) { v.request != "" && r.request == v.request }

  /** A provisioning run points the access request that caused it, and its readiness row, to the new workspace. */
  function Provision(db: Db, v: Provisioning): Db {
    if v.request == "" then db
    else
      db.(requests := map q | q in db.requests ::
            if q == v.request then
              db.requests[q].(
                invited := Some(v.workspace), user := Coalesce(db.requests[q].user, Some(v.owner)), updated := v.at)
            else db.requests[q],
          rows := map i | i in db.rows ::
            if Repoints(db.rows[i], v) then db.rows[i].(workspace := Some(v.workspace), updated := v.at)
            else db.rows[i])
  }

  datatype Attachment = Attachment(email: string, workspace: string, user: Option<string>, at: nat)

  predicate Attaches(r: Row, a: Attachment) {
    a.email != "" && a.workspace != "" && Lower(r.email) == Lower(a.email) && r.workspace.None?
  }

  /** Stamps a workspace onto the rows of this email that have none. */
  function Attach(db: Db, a: Attachment): Db {
    db.(rows := map i | i in db.rows ::
          if Attaches(db.rows[i], a) then
            db.rows[i].(workspace := Some(a.workspace), user := Coalesce(db.rows[i].user, a.user), updated := a.at)
          else db.rows[i])
  }

  /* ---------------- invariant and runs ---------------- */

  ghost predicate OneReceiptPerKey(db: Db) {
    forall i, j {:trigger KeyOf(db.receipts[i]), KeyOf(db.receipts[j])} ::
      i in db.receipts && j in db.receipts && KeyOf(db.receipts[i]) == KeyOf(db.receipts[j]) ==> i == j
  }

  ghost predicate OneRowPerRequest(db: Db) {
    forall i, j {:trigger db.rows[i].request, db.rows[j].request} ::
      i in db.rows && j in db.rows && db.rows[i].request == db.rows[j].request ==> i == j
  }

  ghost predicate Inv(db: Db) {
    && OneReceiptPerKey(db) && OneRowPerRequest(db)
    && (forall i | i in db.rows :: db.rows[i].request in db.requests)
    && (forall i | i in db.receipts :: i < db.nextReceipt && db.receipts[i].row in db.rows)
  }

  datatype Step =
    | Saves(save: Save, picks: Picks)
    | Registers(registration: Registration)
    | AttachesAll(attachment: Attachment)
    | Provisions(provisioning: Provisioning)

  predicate StepLegal(db: Db, t: Step) {
    t.Saves? ==> Legal(db, t.save, t.picks)
  }

  ghost function Exec(db: Db, t: Step): Db
    requires StepLegal(db, t)
  {
    match t
    case Saves(s, p) => SaveAnswers(db, s, p)
    case Registers(g) => Register(db, g)
    case AttachesAll(a) => Attach(db, a)
    case Provisions(v) => Provision(db, v)
  }

  ghost predicate RunLegal(db: Db, steps: seq<Step>)
    decreases |steps|
  {
    steps == [] || (StepLegal(db, steps[0]) && RunLegal(Exec(db, steps[0]), steps[1..]))
  }

  ghost function Run(db: Db, steps: seq<Step>): Db
    requires RunLegal(db, steps)
    decreases |steps|
  {
    if steps == [] then db else Run(Exec(db, steps[0]), steps[1..])
  }
}
