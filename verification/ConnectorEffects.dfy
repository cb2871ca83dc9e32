/**
 What connects, token calls and disconnects answer and write, in terms of rows and columns alone.
 */
module ConnectorEffects {
  import opened Wrappers
  import opened ConnectorStore
  import opened ConnectorTheorems
  import opened ConnectorDatabase

  /* ---------------- nonces ---------------- */

  /** A nonce is claimed exactly by its own caller, unconsumed and before its expiry, and is consumed by that. */
  lemma NonceClaimExactly(db: Db, hash: string, workspace: string, user: string, provider: Provider)
    ensures var d := ClaimNonce(db, hash, workspace, user, provider);
            var works :=
              && hash in db.nonces && db.nonces[hash].workspace == workspace && db.nonces[hash].user == user
              && db.nonces[hash].provider == provider && db.nonces[hash].consumed.None?
                 && db.now < db.nonces[hash].expires;
            && (Claims(db, hash, workspace, user, provider) <==> works)
            && (!works ==> d == db)
            && (works ==>
                  d == db.(nonces := db.nonces[hash :=
                        Nonce(workspace, user, provider, db.nonces[hash].expires, Some(db.now))]))
  {
  }

  /** Registering stores an unconsumed nonce under a hash not used before, and nothing else. */
  lemma NonceRegistration(db: Db, hash: string, n: Nonce)
    ensures var d := RegisterNonce(db, hash, n);
            var works := hash != "" && n.workspace != "" && n.user != "" && hash !in db.nonces;
            && (!works ==> d == db)
            && (works ==> d == db.(nonces :=
                                   db.nonces[hash := Nonce(n.workspace, n.user, n.provider, n.expires, None)]))
  {
  }

  /* ---------------- connect ---------------- */

  predicate GrantOf(db: Db, g: string, c: Connection) {
    && g in db.grants && db.grants[g].workspace == c.workspace && db.grants[g].user == c.user
    && db.grants[g].account == c.account
  }

  predicate SourceOf(db: Db, s: string, c: Connection) {
    && s in db.sources && db.sources[s].workspace == c.workspace && db.sources[s].user == c.user
    && db.sources[s].provider == c.provider
  }

  /** The row with this identity, or a new one under the id brought along. */
  ghost predicate GrantTarget(db: Db, g: string, c: Connection) {
    GrantOf(db, g, c) || (g == c.id && g !in db.grants && forall h :: !GrantOf(db, h, c))
  }

  ghost predicate SourceTarget(db: Db, s: string, c: Connection) {
    SourceOf(db, s, c) || (s == c.sourceId && s !in db.sources && forall t :: !SourceOf(db, t, c))
  }

  /** Grant and source as a connect leaves them: the credential brought, the source live on the grant. */
  ghost predicate ConnectedOn(db: Db, d: Db, c: Connection, g: string, s: string) {
    && d == db.(
         grants := db.grants[g :=
           Grant(c.workspace, c.user, c.account, c.caption, c.scopes, Some(c.tokens), c.accessExpires, Active, None,
                 None)],
         sources := db.sources[s :=
           Source(c.workspace, c.user, c.provider, c.account, c.caption, g, c.scopes, true)],
         audits := db.audits[db.nextAudit := Audit(SourceConnect, c.workspace, c.user, s, g)],
         nextAudit := db.nextAudit + 1)
  }

  /**
   A connect works exactly when its identity is complete and each of its two rows is there already or its id
   is free; then it ends on exactly those rows.
   */
  lemma ConnectExactly(db: Db, c: Connection)
    requires Inv(db)
    ensures var complete := c.workspace != "" && c.user != "" && c.id != "" && c.account != "";
            && (ConnectError(db, c) == Some(Incomplete) <==> !complete)
            && (ConnectError(db, c).None? <==>
                  complete && exists g, s :: GrantTarget(db, g, c) && SourceTarget(db, s, c))
            && (ConnectError(db, c).Some? ==> Connect(db, c) == db)
            && (ConnectError(db, c).None? ==>
                  && GrantTarget(db, GrantIdOf(db, c), c) && SourceTarget(db, SourceIdOf(db, c), c)
                  && ConnectedOn(db, Connect(db, c), c, GrantIdOf(db, c), SourceIdOf(db, c)))
  {
    forall g ensures GrantOf(db, g, c) <==> g in db.grants && GrantMatch(db.grants[g], c.workspace, c.user, c.account) {
    }
    forall s ensures SourceOf(db, s, c)
      <==> s in db.sources && SourceMatch(db.sources[s], c.workspace, c.user, c.provider) {
    }
    if ConnectError(db, c).None? {
      assert GrantTarget(db, GrantIdOf(db, c), c) && SourceTarget(db, SourceIdOf(db, c), c);
    }
  }

  /* ---------------- tokens ---------------- */

  predicate OwnGrant(db: Db, id: string, workspace: string, user: string) {
    id in db.grants && db.grants[id].workspace == workspace && db.grants[id].user == user
  }

  /** Tokens are stored on an own grant that is active or refresh-required, which becomes active without an error. */
  lemma TokenUpdateExactly(db: Db, s: Session)
    ensures var d := UpdateTokens(db, s);
            var works := OwnGrant(db, s.grant, s.workspace, s.user)
                         && db.grants[s.grant].status != Revoked && db.grants[s.grant].status != Failed;
            && (!works ==> d == db)
            && (works ==>
                  d == db.(grants := db.grants[s.grant := db.grants[s.grant].(
                         credential := Some(s.tokens), scopes := s.tokens.scopes, accessExpires := s.tokens.expires,
                         status := Active, lastError := None)]))
            && (Updates(db, s) <==> works)
  {
  }

  /** An error is noted, cut at 500 characters, on an own grant that is not revoked, which then waits for a refresh. */
  lemma RefreshErrorExactly(db: Db, id: string, workspace: string, user: string, error: string)
    ensures var d := MarkRefreshError(db, id, workspace, user, error);
            var works := OwnGrant(db, id, workspace, user) && db.grants[id].status != Revoked;
            && (!works ==> d == db)
            && (works ==>
                  && d == db.(grants := db.grants[id := d.grants[id]])
                  && d.grants[id] == db.grants[id].(status := RefreshRequired, lastError := d.grants[id].lastError)
                  && d.grants[id].lastError == Some(if |error| <= 500 then error else error[..500]))
  {
  }

  /** The stored tokens are to be refreshed: on demand, or with an expiry unreadable or less than a minute ahead. */
  predicate Due(t: Tokens, c: TokenCall) {
    c.force || t.expires == None || t.expires.value - c.clock <= 60000
  }

  /** The provider's token and expiry, the refresh token kept, type and scopes the provider's where it gives them. */
  predicate RefreshedFrom(t: Tokens, a: Answer, n: Tokens) {
    && n.access == a.access && n.expires == Some(a.expires) && n.refresh == t.refresh
    && n.tokenType == (if a.tokenType.None? then t.tokenType else a.tokenType.value)
    && n.scopes == (if a.scopes.None? then t.scopes else a.scopes.value)
  }

  /** What the grant is after a failed refresh: untouched when revoked or gone, else waiting with the error. */
  predicate LeftInError(e: Db, d: Db, c: TokenCall, text: string) {
    if OwnGrant(e, c.grant, c.workspace, c.owner) && e.grants[c.grant].status != Revoked then
      && d == e.(grants := e.grants[c.grant := e.grants[c.grant].(
           status := RefreshRequired, lastError := Some(if |text| <= 500 then text else text[..500]))])
    else d == e
  }

  /**
   What a token call answers and leaves. A stranger, an absent or revoked grant and an envelope that does not
   open are refused. Tokens not due are answered as stored and nothing changes. Due ones are answered as the
   provider gave them, and stored so, if the grant still takes them; else the call fails and the grant
   waits with the error.
   */
  lemma TokenCallExactly(db: Db, c: TokenCall, answer: Result<Answer, string>, gap1: seq<Step>, gap2: seq<Step>)
    requires Inv(db)
    ensures var (d, r) := Called(db, c, answer, gap1, gap2);
            var usable := OwnGrant(db, c.grant, c.workspace, c.owner) && db.grants[c.grant].status != Revoked;
            && (c.caller != c.owner ==> d == db && r == Err(OwnerMismatch))
            && (c.caller == c.owner && !usable ==> d == db && r == Err(RevokedOrAbsent))
            && (c.caller == c.owner && usable && !c.readable ==> d == db && r == Err(CannotOpen))
            && (c.caller == c.owner && usable && c.readable ==>
                  && db.grants[c.grant].credential.Some?
                  && var t := db.grants[c.grant].credential.value;
                     if !Due(t, c) then d == db && r == Ok(t)
                     else RefreshAnswered(Run(db, gap1), d, c, t, answer, gap2, r))
  {
    if UsableGrant(db, c) {
      assert HoldsCredential(db.grants[c.grant]);
    }
  }

  predicate UsableGrant(db: Db, c: TokenCall) {
    OwnGrant(db, c.grant, c.workspace, c.owner) && db.grants[c.grant].status != Revoked
  }

  ghost predicate RefreshAnswered(e: Db, d: Db, c: TokenCall, t: Tokens, answer: Result<Answer, string>,
                                  gap2: seq<Step>, r: Result<Tokens, CallError>) {
    var takes := OwnGrant(e, c.grant, c.workspace, c.owner)
                 && (e.grants[c.grant].status == Active || e.grants[c.grant].status == RefreshRequired);
    && (answer.Ok? && takes ==>
          && r.Ok? && RefreshedFrom(t, answer.value, r.value)
          && d == e.(grants := e.grants[c.grant := e.grants[c.grant].(
               credential := Some(r.value), scopes := r.value.scopes, accessExpires := Some(answer.value.expires),
               status := Active, lastError := None)]))
    && (answer.Ok? && !takes
        ==> r == Err(RefreshFailed) && LeftInError(Run(e, gap2), d, c, "grant changed during refresh"))
    && (answer.Err? ==> r == Err(RefreshFailed) && LeftInError(Run(e, gap2), d, c, answer.error))
  }

  /** A call in flight remembers the tokens it read, and writes back what the provider made of them. */
  lemma InFlightExactly(db: Db, call: nat, workspace: string, user: string, grant: string, a: Answer, error: string)
    requires Inv(db)
    ensures var d := BeginCall(db, call, workspace, user, grant);
            var usable := OwnGrant(db, grant, workspace, user) && db.grants[grant].status != Revoked;
            && (!usable ==> d == db)
            && (usable ==>
                  d == db.(sessions := db.sessions[call :=
                        Session(workspace, user, grant, db.grants[grant].credential.value)]))
    ensures call in db.sessions ==>
              var s := db.sessions[call];
              var d, e := WriteBack(db, call, a), FailCall(db, call, error);
              var takes := OwnGrant(db, s.grant, s.workspace, s.user)
                           && (db.grants[s.grant].status == Active || db.grants[s.grant].status == RefreshRequired);
              && (!takes ==> d == db)
              && (takes ==>
                    && s.grant in d.grants && d.grants[s.grant].credential.Some?
                    && RefreshedFrom(s.tokens, a, d.grants[s.grant].credential.value)
                    && d.grants[s.grant].status == Active && d.sessions == db.sessions - {call}
                    && d == db.(grants := db.grants[s.grant := d.grants[s.grant]], sessions := d.sessions))
              && e == MarkRefreshError(db, s.grant, s.workspace, s.user, error).(sessions := db.sessions - {call})
  {
    if OwnGrant(db, grant, workspace, user) {
      assert HoldsCredential(db.grants[grant]);
    }
  }

  /* ---------------- disconnects ---------------- */

  predicate LiveOnGrant(db: Db, s: string, d: Disconnect) {
    && s in db.sources && db.sources[s].live && db.sources[s].workspace == d.workspace && db.sources[s].user == d.user
    && db.sources[s].grant == d.grant
  }

  /** Exactly when the shared disconnect works: its source is live on the named grant and not alone there. */
  lemma SharedExactly(db: Db, d: Disconnect)
    ensures var e, r := DisconnectShared(db, d), SharedAnswer(db, d);
            var works := d.grant != "" && LiveOnGrant(db, d.source, d) && exists s ::
              s != d.source && LiveOnGrant(db, s, d);
            && (r.Ok? <==> works) && (works ==> r == Ok({d.source}))
               && (d.grant != "" && !works ==> r == Err(CardinalityChanged))
            && (!works ==> e == db)
            && (works ==>
                  e == db.(sources := db.sources[d.source := db.sources[d.source].(live := false)],
                           audits := db.audits[db.nextAudit :=
                             Audit(SourceDisconnect, d.workspace, d.user, d.source, d.grant)],
                           nextAudit := db.nextAudit + 1))
  {
    var live := LiveFor(db, d);
    forall s ensures s in live <==> LiveOnGrant(db, s, d) {
    }
    if d.source in live {
      assert |live - {d.source}| == |live| - 1;
      if s :| s != d.source && LiveOnGrant(db, s, d) {
        assert s in live - {d.source};
      }
      if |live| > 1 {
        var s :| s in live - {d.source};
        assert LiveOnGrant(db, s, d);
      }
    }
  }

  /** What the last-source disconnect writes: the grant wiped, its live sources ended, an audit row for the target. */
  lemma LastExactly(db: Db, d: Disconnect)
    ensures var e, r := DisconnectLast(db, d), LastAnswer(db, d);
            var works := d.grant != "" && OwnGrant(db, d.grant, d.workspace, d.user)
              && db.grants[d.grant].status != Revoked;
            && (!works ==> e == db)
            && (works ==>
                  && e.grants == db.grants[d.grant := e.grants[d.grant]]
                  && e.grants[d.grant] == db.grants[d.grant].(
                       status := Revoked, credential := None, accessExpires := None, lastError := None,
                       verifiedAt := Some(d.verifiedAt))
                  && e.sources.Keys == db.sources.Keys
                  && (forall s | s in db.sources ::
                        e.sources[s] == db.sources[s].(live := db.sources[s].live && !LiveOnGrant(db, s, d)))
                  && e == db.(grants := e.grants, sources := e.sources, audits := e.audits, nextAudit := e.nextAudit)
                  && (LiveOnGrant(db, d.source, d) ==>
                        && e.nextAudit == db.nextAudit + 1
                        && e.audits == db.audits[db.nextAudit :=
                             Audit(SourceDisconnect, d.workspace, d.user, d.source, d.grant)])
                  && (!LiveOnGrant(db, d.source, d) ==> e.audits == db.audits && e.nextAudit == db.nextAudit))
            && (r.Ok? <==> works && LiveOnGrant(db, d.source, d))
            && (r.Ok? ==> forall s :: s in r.value <==> LiveOnGrant(db, s, d))
  {
  }

  /* ---------------- steps of a run ---------------- */

  lemma OneStep(db: Db, s: Step)
    ensures Run(db, [s]) == Exec(db, s)
  {
    assert [s][1..] == [] && Run(db, [s]) == Run(Exec(db, s), []);
  }

  /** A step of a run does what the statement made of it does. */
  lemma ConnectorStepsAreStatements(db: Db, c: Connection, d: Disconnect, call: nat, a: Answer, error: string)
    ensures Run(db, [ConnectSource(c)]) == Connect(db, c)
    ensures Run(db, [Shared(d)]) == DisconnectShared(db, d) && Run(db, [Last(d)]) == DisconnectLast(db, d)
    ensures Run(db, [Begin(call, d.workspace, d.user, d.grant)]) == BeginCall(db, call, d.workspace, d.user, d.grant)
    ensures Run(db, [Write(call, a)]) == WriteBack(db, call, a)
            && Run(db, [Fail(call, error)]) == FailCall(db, call, error)
  {
    OneStep(db, ConnectSource(c));
    OneStep(db, Shared(d));
    OneStep(db, Last(d));
    OneStep(db, Begin(call, d.workspace, d.user, d.grant));
    OneStep(db, Write(call, a));
    OneStep(db, Fail(call, error));
  }

  lemma NonceStepsAreStatements(db: Db, hash: string, n: Nonce, dt: nat)
    ensures Run(db, [Register(hash, n)]) == RegisterNonce(db, hash, n)
    ensures Run(db, [Claim(hash, n.workspace, n.user, n.provider)])
            == ClaimNonce(db, hash, n.workspace, n.user, n.provider)
    ensures Run(db, [Tick(dt)]) == db.(now := db.now + dt)
  {
    OneStep(db, Register(hash, n));
    OneStep(db, Claim(hash, n.workspace, n.user, n.provider));
    OneStep(db, Tick(dt));
  }

  /** Which sources are live on a grant. */
  lemma LiveSourcesExactly(db: Db, workspace: string, user: string, grant: string, s: string)
    ensures s in LiveSources(db, workspace, user, grant) <==>
            && s in db.sources && db.sources[s].live && db.sources[s].workspace == workspace
            && db.sources[s].user == user && db.sources[s].grant == grant
  {
  }
}
