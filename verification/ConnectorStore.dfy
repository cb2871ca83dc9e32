/**
 The statements of connector-oauth-store.ts over grants, sources, callback nonces and audit rows, and
 the token calls of connector-oauth-adapter.ts that are in flight between two of them.
 Only sources bound to a grant are kept; every grant has the one authority provider, Google.
 */
module ConnectorStore {
  import opened Wrappers

  datatype Provider = GoogleDrive | Gmail

  /** What the sealed envelope holds; `expires` is none when the stored date cannot be read. */
  datatype Tokens = Tokens(access: string, refresh: string, tokenType: string, expires: Option<int>,
                           scopes: seq<string>)

  datatype GrantStatus = Active | RefreshRequired | Revoked | Failed

  datatype Grant = Grant(
    workspace: string, user: string, account: string, caption: Option<string>, scopes: seq<string>,
    credential: Option<Tokens>, accessExpires: Option<int>, status: GrantStatus,
    lastError: Option<string>, verifiedAt: Option<string>)

  datatype Source = Source(
    workspace: string, user: string, provider: Provider, account: string, caption: Option<string>, grant: string,
    scopes: seq<string>, live: bool)

  datatype Nonce = Nonce(workspace: string, user: string, provider: Provider, expires: nat, consumed: Option<nat>)

  datatype AuditKind = SourceConnect | SourceDisconnect

  datatype Audit = Audit(kind: AuditKind, workspace: string, user: string, source: string, grant: string)

  /** A token call that has read its grant and not yet written back. */
  datatype Session = Session(workspace: string, user: string, grant: string, tokens: Tokens)

  datatype Db = Db(
    now: nat, grants: map<string, Grant>, sources: map<string, Source>, nonces: map<string, Nonce>,
    audits: map<nat, Audit>, nextAudit: nat, sessions: map<nat, Session>)

  const EMPTY := Db(0, map[], map[], map[], map[], 0, map[])

  datatype Error = Incomplete | DuplicateRow | CardinalityChanged

  /* ---------------- callback nonces ---------------- */

  predicate NonceMatch(n: Nonce, workspace: string, user: string, provider: Provider) {
    n.workspace == workspace && n.user == user && n.provider == provider
  }

  function RegisterNonce(db: Db, hash: string, n: Nonce): Db {
    if hash == "" || n.workspace == "" || n.user == "" || hash in db.nonces then db
    else db.(nonces := db.nonces[hash := n.(consumed := None)])
  }

  predicate Claims(db: Db, hash: string, workspace: string, user: string, provider: Provider) {
    && hash in db.nonces && NonceMatch(db.nonces[hash], workspace, user, provider)
    && db.nonces[hash].consumed.None? && db.nonces[hash].expires > db.now
  }

  function ClaimNonce(db: Db, hash: string, workspace: string, user: string, provider: Provider): Db {
    if Claims(db, hash, workspace, user, provider) then
      db.(nonces := db.nonces[hash := db.nonces[hash].(consumed := Some(db.now))])
    else db
  }

  /* ---------------- connect ---------------- */

  datatype Connection = Connection(
    id: string, workspace: string, user: string, account: string, caption: Option<string>, scopes: seq<string>,
    tokens: Tokens, accessExpires: Option<int>, sourceId: string, provider: Provider)

  /** The columns of the unique constraint on grants. */
  function GrantKey(g: Grant): (string, string, string) { (g.workspace, g.user, g.account) }

  predicate GrantMatch(g: Grant, workspace: string, user: string, account: string) {
    GrantKey(g) == (workspace, user, account)
  }

  ghost function FindGrant(db: Db, workspace: string, user: string, account: string): (r: Option<string>)
    ensures r.Some? ==> r.value in db.grants && GrantMatch(db.grants[r.value], workspace, user, account)
    ensures r.None? ==> forall i | i in db.grants :: !GrantMatch(db.grants[i], workspace, user, account)
  {
    if i :| i in db.grants && GrantMatch(db.grants[i], workspace, user, account) then Some(i) else None
  }

  /** The columns of the unique index on sources bound to a grant. */
  function SourceKey(s: Source): (string, string, Provider) { (s.workspace, s.user, s.provider) }

  predicate SourceMatch(s: Source, workspace: string, user: string, provider: Provider) {
    SourceKey(s) == (workspace, user, provider)
  }

  ghost function FindSource(db: Db, workspace: string, user: string, provider: Provider): (r: Option<string>)
    ensures r.Some? ==> r.value in db.sources && SourceMatch(db.sources[r.value], workspace, user, provider)
    ensures r.None? ==> forall i | i in db.sources :: !SourceMatch(db.sources[i], workspace, user, provider)
  {
    if i :| i in db.sources && SourceMatch(db.sources[i], workspace, user, provider) then Some(i) else None
  }

  /** The row that the grant upsert and the source upsert end on. */
  ghost function GrantIdOf(db: Db, c: Connection): string {
    var g := FindGrant(db, c.workspace, c.user, c.account);
    if g.Some? then g.value else c.id
  }

  ghost function SourceIdOf(db: Db, c: Connection): string {
    var s := FindSource(db, c.workspace, c.user, c.provider);
    if s.Some? then s.value else c.sourceId
  }

  ghost function ConnectError(db: Db, c: Connection): Option<Error> {
    if c.workspace == "" || c.user == "" || c.id == "" || c.account == "" then Some(Incomplete)
    else if FindGrant(db, c.workspace, c.user, c.account).None? && c.id in db.grants then Some(DuplicateRow)
    else if FindSource(db, c.workspace, c.user, c.provider).None? && c.sourceId in db.sources then Some(DuplicateRow)
    else None
  }

  function ConnectedGrant(c: Connection): Grant {
    Grant(c.workspace, c.user, c.account, c.caption, c.scopes, Some(c.tokens), c.accessExpires, Active, None, None)
  }

  function ConnectedSource(c: Connection, grant: string): Source {
    Source(c.workspace, c.user, c.provider, c.account, c.caption, grant, c.scopes, true)
  }

  ghost function Connect(db: Db, c: Connection): Db {
    if ConnectError(db, c).Some? then db
    else
      var g, s := GrantIdOf(db, c), SourceIdOf(db, c);
      db.(grants := db.grants[g := ConnectedGrant(c)],
          sources := db.sources[s := ConnectedSource(c, g)],
          audits := db.audits[db.nextAudit := Audit(SourceConnect, c.workspace, c.user, s, g)],
          nextAudit := db.nextAudit + 1)
  }

  /* ---------------- token refresh ---------------- */

  predicate OwnedGrant(db: Db, id: string, workspace: string, user: string) {
    id in db.grants && db.grants[id].workspace == workspace && db.grants[id].user == user
  }

  predicate Updates(db: Db, s: Session) {
    OwnedGrant(db, s.grant, s.workspace, s.user) && db.grants[s.grant].status in {Active, RefreshRequired}
  }

  /** Stores what a session holds, unless the grant left the two states that allow it. */
  function UpdateTokens(db: Db, s: Session): Db {
    if Updates(db, s) then
      db.(grants := db.grants[s.grant := db.grants[s.grant].(
            credential := Some(s.tokens), scopes := s.tokens.scopes, accessExpires := s.tokens.expires,
            lastError := None, status := Active)])
    else db
  }

  function MarkRefreshError(db: Db, id: string, workspace: string, user: string, error: string): Db {
    if OwnedGrant(db, id, workspace, user) && db.grants[id].status != Revoked then
      db.(grants := db.grants[id := db.grants[id].(
            status := RefreshRequired, lastError := Some(if |error| > 500 then error[..500] else error))])
    else db
  }

  /** The provider's answer to a refresh request, section 6 of RFC 6749: no new refresh token is kept. */
  datatype Answer = Answer(access: string, tokenType: Option<string>, expires: int, scopes: Option<seq<string>>)

  function Renewed(t: Tokens, a: Answer): Tokens {
    Tokens(a.access, t.refresh, if a.tokenType.Some? then a.tokenType.value else t.tokenType, Some(a.expires),
           if a.scopes.Some? then a.scopes.value else t.scopes)
  }

  function BeginCall(db: Db, call: nat, workspace: string, user: string, grant: string): Db {
    if OwnedGrant(db, grant, workspace, user) && db.grants[grant].status != Revoked
      && db.grants[grant].credential.Some? then
      db.(sessions := db.sessions[call := Session(workspace, user, grant, db.grants[grant].credential.value)])
    else db
  }

  /** The call stays open when its write was refused: marking the error comes next. */
  function WriteBack(db: Db, call: nat, a: Answer): Db {
    if call !in db.sessions then db
    else
      var s := db.sessions[call].(tokens := Renewed(db.sessions[call].tokens, a));
      if Updates(db, s) then UpdateTokens(db, s).(sessions := db.sessions - {call}) else db
  }

  function FailCall(db: Db, call: nat, error: string): Db {
    if call !in db.sessions then db
    else
      var s := db.sessions[call];
      MarkRefreshError(db, s.grant, s.workspace, s.user, error).(sessions := db.sessions - {call})
  }

  /* ---------------- disconnect ---------------- */

  predicate LiveOn(s: Source, workspace: string, user: string, grant: string) {
    s.live && s.workspace == workspace && s.user == user && s.grant == grant
  }

  function LiveSources(db: Db, workspace: string, user: string, grant: string): set<string> {
    set i | i in db.sources && LiveOn(db.sources[i], workspace, user, grant)
  }

  datatype Disconnect = Disconnect(workspace: string, user: string, source: string, grant: string, verifiedAt: string)

  function LiveFor(db: Db, d: Disconnect): set<string> { LiveSources(db, d.workspace, d.user, d.grant) }

  predicate SharedApplies(db: Db, d: Disconnect) {
    d.grant != "" && d.source in LiveFor(db, d) && |LiveFor(db, d)| > 1
  }

  function DisconnectAudit(d: Disconnect): Audit {
    Audit(SourceDisconnect, d.workspace, d.user, d.source, d.grant)
  }

  function DisconnectShared(db: Db, d: Disconnect): Db {
    if SharedApplies(db, d) then
      db.(sources := db.sources[d.source := db.sources[d.source].(live := false)],
          audits := db.audits[db.nextAudit := DisconnectAudit(d)], nextAudit := db.nextAudit + 1)
    else db
  }

  predicate Revokes(db: Db, d: Disconnect) {
    d.grant != "" && OwnedGrant(db, d.grant, d.workspace, d.user) && db.grants[d.grant].status != Revoked
  }

  function RevokedGrant(g: Grant, verifiedAt: string): Grant {
    g.(status := Revoked, credential := None, accessExpires := None, lastError := None, verifiedAt := Some(verifiedAt))
  }

  /** The revocation does not wait for the target row: only the audit row and the answer do. */
  function DisconnectLast(db: Db, d: Disconnect): Db {
    if !Revokes(db, d) then db
    else
      db.(grants := db.grants[d.grant := RevokedGrant(db.grants[d.grant], d.verifiedAt)],
          sources := map i | i in db.sources :: Ended(db.sources[i], d),
          audits := if d.source in LiveFor(db, d) then db.audits[db.nextAudit := DisconnectAudit(d)] else db.audits,
          nextAudit := if d.source in LiveFor(db, d) then db.nextAudit + 1 else db.nextAudit)
  }

  function Ended(s: Source, d: Disconnect): Source {
    if LiveOn(s, d.workspace, d.user, d.grant) then s.(live := false) else s
  }

  function SharedAnswer(db: Db, d: Disconnect): Result<set<string>, Error> {
    if d.grant == "" then Err(Incomplete)
    else if SharedApplies(db, d) then Ok({d.source}) else Err(CardinalityChanged)
  }

  function LastAnswer(db: Db, d: Disconnect): Result<set<string>, Error> {
    if d.grant == "" then Err(Incomplete)
    else if Revokes(db, d) && d.source in LiveFor(db, d) then Ok(LiveFor(db, d))
    else Err(CardinalityChanged)
  }

  /* ---------------- invariant and runs ---------------- */

  ghost predicate UniqueGrants(db: Db) {
    forall i, j {:trigger GrantKey(db.grants[i]), GrantKey(db.grants[j])} ::
      i in db.grants && j in db.grants && GrantKey(db.grants[i]) == GrantKey(db.grants[j]) ==> i == j
  }

  ghost predicate UniqueSources(db: Db) {
    forall i, j {:trigger SourceKey(db.sources[i]), SourceKey(db.sources[j])} ::
      i in db.sources && j in db.sources && SourceKey(db.sources[i]) == SourceKey(db.sources[j]) ==> i == j
  }

  /** A source belongs to a grant of its own workspace and user, which is not revoked while it is live. */
  predicate Bound(db: Db, s: Source) {
    OwnedGrant(db, s.grant, s.workspace, s.user) && (s.live ==> db.grants[s.grant].status != Revoked)
  }

  /** Exactly the revoked grants hold no credential. */
  predicate HoldsCredential(g: Grant) {
    if g.status == Revoked then g.credential.None? && g.accessExpires.None? else g.credential.Some?
  }

  ghost predicate Inv(db: Db) {
    && "" !in db.grants && UniqueGrants(db) && UniqueSources(db)
    && (forall i | i in db.sources :: Bound(db, db.sources[i]))
    && (forall i | i in db.grants :: HoldsCredential(db.grants[i]))
    && (forall i | i in db.audits :: i < db.nextAudit)
  }

  datatype Step =
    | Tick(elapsed: nat)
    | Register(hash: string, nonce: Nonce)
    | Claim(hash: string, workspace: string, user: string, provider: Provider)
    | ConnectSource(connection: Connection)
    | Begin(call: nat, workspace: string, user: string, grant: string)
    | Write(call: nat, answer: Answer)
    | Fail(call: nat, error: string)
    | Shared(disconnect: Disconnect)
    | Last(disconnect: Disconnect)

  ghost function Exec(db: Db, s: Step): Db {
    match s
    case Tick(dt) => db.(now := db.now + dt)
    case Register(hash, n) => RegisterNonce(db, hash, n)
    case Claim(hash, w, u, p) => ClaimNonce(db, hash, w, u, p)
    case ConnectSource(c) => Connect(db, c)
    case Begin(call, w, u, g) => BeginCall(db, call, w, u, g)
    case Write(call, a) => WriteBack(db, call, a)
    case Fail(call, e) => FailCall(db, call, e)
    case Shared(d) => DisconnectShared(db, d)
    case Last(d) => DisconnectLast(db, d)
  }

  ghost function Run(db: Db, steps: seq<Step>): Db
    decreases |steps|
  {
    if steps == [] then db else Run(Exec(db, steps[0]), steps[1..])
  }
}
