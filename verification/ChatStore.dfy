/**
 The statements of chat-store.ts and chat-thread-store.ts over three tables: threads, messages and
 audit rows. Messages are written one by one; their keys are distinct within a statement, so this is
 the same as every CTE reading the state before the statement.
 */
module ChatStore {
  import opened Wrappers
  import opened Text
  import opened ChatScope

  datatype Role = You | Assistant

  datatype EntryType = UserRequest | AssistantAnswer | ResolutionPreview | ExecutionOutcome | SystemFailure

  datatype TitleSource = Default | Auto | Manual | Legacy

  datatype Thread = Thread(user: string, scope: Scope, scopeKey: string, title: string, source: TitleSource,
                           archived: bool)

  /** The columns that must not change when an entry is repeated. */
  datatype Content = Content(
    role: Role, body: string, mode: Option<string>, generatedBy: Option<string>, groundedOn: Option<string>,
    links: Option<seq<string>>, resolution: Option<string>, executionReceipt: Option<string>, packet: Option<string>,
    operationEvent: Option<string>, intent: Option<string>, attestation: Option<string>)

  /** One message of an exchange; `receipt` is the fresh receipt id made for it. */
  datatype Entry = Entry(
    content: Content, interaction: Option<string>, entryType: Option<EntryType>, audit: Option<string>, receipt: string)

  datatype Message = Message(
    thread: string, content: Content, interaction: Option<string>, entryType: Option<EntryType>,
    audit: Option<string>, receipt: Option<string>)

  datatype AuditKind = ChatAnswer | ThreadCreate | ThreadRename | ThreadArchive | ThreadRestore

  datatype Audit = Audit(workspace: Option<string>, actor: string, kind: AuditKind, target: string)

  datatype Db = Db(
    threads: map<string, Thread>,
    messages: map<nat, Message>, nextMessage: nat,
    audits: map<nat, Audit>, nextAudit: nat)

  const MAX_BODY := 8000

  /* ---------------- what the worker sends ---------------- */

  function NonBlank(entries: seq<Entry>): seq<Entry> {
    if entries == [] then []
    else if Trim(entries[0].content.body) == "" then NonBlank(entries[1..])
    else [entries[0]] + NonBlank(entries[1..])
  }

  function NonEmpty(links: seq<string>): seq<string> {
    if links == [] then []
    else if links[0] == "" then NonEmpty(links[1..])
    else [links[0]] + NonEmpty(links[1..])
  }

  function LinksOf(c: Content): Option<seq<string>> {
    if c.role == You || c.links.None? then None
    else
      var kept := NonEmpty(c.links.value);
      Some(if |kept| > 200 then kept[..200] else kept)
  }

  function Payload(e: Entry): Entry {
    e.(content := e.content.(body := Left(e.content.body, MAX_BODY), links := LinksOf(e.content)))
  }

  function Payloads(entries: seq<Entry>): seq<Entry> {
    seq(|entries|, i requires 0 <= i < |entries| => Payload(entries[i]))
  }

  datatype Exchange = Exchange(user: string, scope: Scope, requested: Option<string>, entries: seq<Entry>)

  function ThreadId(x: Exchange): string {
    if x.requested.Some? then x.requested.value else ThreadIdFor(x.user, ScopeKey(x.scope))
  }

  /* ---------------- the append statement ---------------- */

  predicate Keyed(e: Entry) { e.interaction.Some? && e.entryType.Some? }

  predicate SameKey(e: Entry, f: Entry) {
    Keyed(e) && e.interaction == f.interaction && e.entryType == f.entryType
  }

  /** A repeated key in one statement makes the upsert fail as a whole. */
  predicate DistinctKeys(entries: seq<Entry>) {
    forall i, j | 0 <= i < j < |entries| :: !SameKey(entries[i], entries[j])
  }

  /** The columns of the unique index on messages, when none is null. */
  function KeyOf(m: Message): Option<(string, string, EntryType)> {
    if m.interaction.Some? && m.entryType.Some? then Some((m.thread, m.interaction.value, m.entryType.value)) else None
  }

  predicate EntryMatch(m: Message, thread: string, e: Entry) {
    Keyed(e) && KeyOf(m) == Some((thread, e.interaction.value, e.entryType.value))
  }

  ghost function FindEntry(db: Db, thread: string, e: Entry): (r: Option<nat>)
    ensures r.Some? ==> r.value in db.messages && EntryMatch(db.messages[r.value], thread, e)
    ensures r.None? ==> forall i | i in db.messages :: !EntryMatch(db.messages[i], thread, e)
  {
    if i :| i in db.messages && EntryMatch(db.messages[i], thread, e) then Some(i) else None
  }

  /** Only answers are audited, under a name made of the scope and the interaction (or the receipt). */
  function AuditTarget(scopeKey: string, e: Entry): Option<string> {
    if e.content.role == Assistant && e.entryType == Some(AssistantAnswer) then
      Some("chat:" + scopeKey + ":" + if e.interaction.Some? then e.interaction.value else e.receipt)
    else None
  }

  predicate AuditMatch(a: Audit, workspace: string, actor: string, target: string) {
    AnswerKey(a) == Some((workspace, actor, target))
  }

  /** The columns of the unique index on answer audits, when none is null. */
  function AnswerKey(a: Audit): Option<(string, string, string)> {
    if a.kind == ChatAnswer && a.workspace.Some? then Some((a.workspace.value, a.actor, a.target)) else None
  }

  ghost function FindAudit(db: Db, scope: Scope, actor: string, target: Option<string>): (r: Option<nat>)
    ensures r.Some? ==>
              && scope.workspace.Some? && target.Some? && r.value in db.audits
              && AuditMatch(db.audits[r.value], scope.workspace.value, actor, target.value)
    ensures r.None? && scope.workspace.Some? && target.Some? ==>
              forall i | i in db.audits :: !AuditMatch(db.audits[i], scope.workspace.value, actor, target.value)
  {
    if scope.workspace.None? || target.None? then None
    else if i :| i in db.audits && AuditMatch(db.audits[i], scope.workspace.value, actor, target.value) then Some(i)
    else None
  }

  /** The stored entry has the content of this one, and its audit id unless this one brings none. */
  predicate Repeats(m: Message, e: Entry) {
    m.content == e.content && (e.audit.Some? ==> m.audit == e.audit)
  }

  ghost predicate Conflicts(db: Db, thread: string, e: Entry) {
    var f := FindEntry(db, thread, e);
    f.Some? && !Repeats(db.messages[f.value], e)
  }

  predicate OwnedBy(t: Thread, user: string, scope: Scope) {
    t.user == user && t.scopeKey == ScopeKey(scope) && t.scope == scope
  }

  /** The thread row can be written: absent and not asked for by id, or the caller's own and active. */
  predicate Admits(db: Db, x: Exchange) {
    var id := ThreadId(x);
    if id in db.threads then OwnedBy(db.threads[id], x.user, x.scope) && !db.threads[id].archived
    else x.requested.None?
  }

  function FirstYou(entries: seq<Entry>): Option<string> {
    if entries == [] then None
    else if entries[0].content.role == You then Some(entries[0].content.body)
    else FirstYou(entries[1..])
  }

  function WrittenThread(db: Db, x: Exchange): Thread {
    var id := ThreadId(x);
    var you := FirstYou(Payloads(x.entries));
    var asked := if you.None? || Left(you.value, 120) == "" then None else Some(Left(you.value, 120));
    if id in db.threads then
      var t := db.threads[id];
      if t.source != Default then t
      else t.(title := if asked.Some? then asked.value else t.title, source := if you.Some? then Auto else Default)
    else
      Thread(x.user, x.scope, ScopeKey(x.scope), if asked.Some? then asked.value else "New chat",
             if you.Some? then Auto else Default, false)
  }

  ghost predicate NeedsAudit(db: Db, x: Exchange, e: Entry) {
    var target := AuditTarget(ScopeKey(x.scope), e);
    && target.Some? && x.scope.workspace.Some? && e.audit.None?
    && FindEntry(db, ThreadId(x), e).None? && FindAudit(db, x.scope, x.user, target).None?
  }

  /** The audit id a written or repeated entry carries. */
  ghost function AuditFor(db: Db, x: Exchange, e: Entry): Option<string> {
    var f := FindEntry(db, ThreadId(x), e);
    var a := FindAudit(db, x.scope, x.user, AuditTarget(ScopeKey(x.scope), e));
    var stored := if f.Some? then db.messages[f.value].audit else None;
    var known := if a.Some? then Some(Decimal(a.value)) else None;
    var written := if NeedsAudit(db, x, e) then Some(Decimal(db.nextAudit)) else None;
    Coalesce(Coalesce(e.audit, stored), Coalesce(known, written))
  }

  /** The row this entry would have; unanswered roles get no receipt. */
  ghost function Row(db: Db, x: Exchange, e: Entry): Message {
    Message(ThreadId(x), e.content, e.interaction, e.entryType, AuditFor(db, x, e),
            if e.content.role == Assistant then Some(e.receipt) else None)
  }

  /** Writes one entry, or recognises it, or (third case) refuses to touch a differing row. */
  ghost function WriteEntry(db: Db, x: Exchange, e: Entry): (Db, Option<nat>) {
    var f := FindEntry(db, ThreadId(x), e);
    var d := if NeedsAudit(db, x, e) then
               db.(audits := db.audits[db.nextAudit :=
                     Audit(x.scope.workspace, x.user, ChatAnswer, AuditTarget(ScopeKey(x.scope), e).value)],
                   nextAudit := db.nextAudit + 1)
             else db;
    if f.None? then
      (d.(messages := d.messages[d.nextMessage := Row(db, x, e)], nextMessage := d.nextMessage + 1),
       Some(d.nextMessage))
    else if db.messages[f.value].content == e.content && db.messages[f.value].audit == AuditFor(db, x, e) then
      (d, f)
    else (d, None)
  }

  ghost function WriteEntries(db: Db, x: Exchange, entries: seq<Entry>): (Db, seq<Option<nat>>)
    decreases |entries|
  {
    if entries == [] then (db, [])
    else
      var (d, id) := WriteEntry(db, x, entries[0]);
      var (e, ids) := WriteEntries(d, x, entries[1..]);
      (e, [id] + ids)
  }

  /** No entry clashes with stored content, and the thread may be written. */
  ghost predicate Allowed(db: Db, x: Exchange) {
    var p := Payloads(x.entries);
    Admits(db, x) && forall i | 0 <= i < |p| :: !Conflicts(db, ThreadId(x), p[i])
  }

  /** Otherwise the statement answers with no rows, or (repeated keys) raises; both write nothing. */
  ghost predicate Writes(db: Db, x: Exchange) {
    Allowed(db, x) && DistinctKeys(Payloads(x.entries))
  }

  ghost function Append(db: Db, x: Exchange): (Db, seq<Option<nat>>) {
    if Writes(db, x) then
      WriteEntries(db.(threads := db.threads[ThreadId(x) := WrittenThread(db, x)]), x, Payloads(x.entries))
    else (db, [])
  }

  /* ---------------- create and update a thread ---------------- */

  datatype Creation = Creation(id: string, user: string, scope: Scope, title: string)

  function NewTitle(c: Creation): string { Or(Trim(c.title), "New chat") }

  function Create(db: Db, c: Creation): Db {
    if c.user == "" || |NewTitle(c)| > 120 || c.id in db.threads then db
    else
      db.(threads := db.threads[c.id :=
            Thread(c.user, c.scope, ScopeKey(c.scope), NewTitle(c), if c.title == "" then Default else Manual, false)],
          audits := db.audits[db.nextAudit := Audit(c.scope.workspace, c.user, ThreadCreate, c.id)],
          nextAudit := db.nextAudit + 1)
  }

  datatype Status = Active | Archived

  datatype Change = Change(id: string, user: string, scope: Scope, title: Option<string>, status: Option<Status>)

  predicate ChangeRefused(c: Change) {
    || c.user == "" || !IsThreadId(Trim(c.id)) || (c.title.None? && c.status.None?)
    || (c.title.Some? && (Trim(c.title.value) == "" || |Trim(c.title.value)| > 120))
  }

  predicate Changes(db: Db, c: Change) {
    !ChangeRefused(c) && Trim(c.id) in db.threads && OwnedBy(db.threads[Trim(c.id)], c.user, c.scope)
  }

  function ChangedThread(t: Thread, c: Change): Thread {
    t.(title := if c.title.Some? then Trim(c.title.value) else t.title,
       source := if c.title.Some? then Manual else t.source,
       archived := if c.status.Some? then c.status == Some(Archived) else t.archived)
  }

  function ChangeKind(c: Change): AuditKind {
    match c.status
    case Some(Archived) => ThreadArchive
    case Some(Active) => ThreadRestore
    case None => ThreadRename
  }

  function Update(db: Db, c: Change): Db {
    if !Changes(db, c) then db
    else
      var id := Trim(c.id);
      db.(threads := db.threads[id := ChangedThread(db.threads[id], c)],
          audits := db.audits[db.nextAudit := Audit(c.scope.workspace, c.user, ChangeKind(c), id)],
          nextAudit := db.nextAudit + 1)
  }

  /* ---------------- invariant and runs ---------------- */

  ghost predicate UniqueEntries(db: Db) {
    forall i, j {:trigger KeyOf(db.messages[i]), KeyOf(db.messages[j])} ::
      i in db.messages && j in db.messages && KeyOf(db.messages[i]).Some?
        && KeyOf(db.messages[i]) == KeyOf(db.messages[j])
      ==> i == j
  }

  ghost predicate UniqueAnswers(db: Db) {
    forall i, j {:trigger AnswerKey(db.audits[i]), AnswerKey(db.audits[j])} ::
      i in db.audits && j in db.audits && AnswerKey(db.audits[i]).Some?
        && AnswerKey(db.audits[i]) == AnswerKey(db.audits[j])
      ==> i == j
  }

  /** Every answer in a workspace thread carries an audit id. */
  predicate Audited(t: Thread, m: Message) {
    t.scope.workspace.Some? && m.content.role == Assistant && m.entryType == Some(AssistantAnswer) ==> m.audit.Some?
  }

  predicate HasItsKey(t: Thread) { t.scopeKey == ScopeKey(t.scope) }

  ghost predicate Inv(db: Db) {
    && (forall i | i in db.messages :: i < db.nextMessage)
    && (forall i | i in db.audits :: i < db.nextAudit)
    && (forall i {:trigger HasItsKey(db.threads[i])} | i in db.threads :: HasItsKey(db.threads[i]))
    && (forall i | i in db.messages ::
          db.messages[i].thread in db.threads && Audited(db.threads[db.messages[i].thread], db.messages[i]))
    && UniqueEntries(db) && UniqueAnswers(db)
  }

  datatype Step = CreateThread(creation: Creation) | UpdateThread(change: Change) | AppendExchange(exchange: Exchange)

  ghost function Exec(db: Db, s: Step): Db {
    match s
    case CreateThread(c) => Create(db, c)
    case UpdateThread(c) => Update(db, c)
    case AppendExchange(x) => Append(db, x).0
  }

  ghost function Run(db: Db, steps: seq<Step>): Db
    decreases |steps|
  {
    if steps == [] then db else Run(Exec(db, steps[0]), steps[1..])
  }
}
