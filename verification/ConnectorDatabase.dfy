/**
 Connectors as the worker runs them: callback nonces, connect, the two disconnects, and a token call of
 two or three statements, changing the tables in place and proved against the statement functions.
 */
module ConnectorDatabase {
  import opened Wrappers
  import opened ConnectorStore
  import opened ConnectorTheorems

  datatype CallError = OwnerMismatch | RevokedOrAbsent | CannotOpen | RefreshFailed

  /** One call for an access token; `readable` says whether the sealed envelope can be opened. */
  datatype TokenCall = TokenCall(caller: string, workspace: string, owner: string, grant: string,
                                 force: bool, clock: int, readable: bool)

  const REFRESH_MARGIN := 60000

  predicate NeedsRefresh(t: Tokens, c: TokenCall) {
    c.force || t.expires.None? || t.expires.value <= c.clock + REFRESH_MARGIN
  }

  function SessionOf(c: TokenCall, t: Tokens): Session { Session(c.workspace, c.owner, c.grant, t) }

  predicate Usable(db: Db, c: TokenCall) {
    OwnedGrant(db, c.grant, c.workspace, c.owner) && db.grants[c.grant].status != Revoked
  }

  ghost function RefreshFailure(db: Db, c: TokenCall, error: string, gap: seq<Step>): (Db, Result<Tokens, CallError>) {
    (MarkRefreshError(Run(db, gap), c.grant, c.workspace, c.owner, error), Err(RefreshFailed))
  }

  /**
   The whole call: `gap1` is what others do before the provider's answer is stored, `gap2` what they do
   before a failure is recorded; a provider that fails answers with an error text.
   */
  ghost function Called(db: Db, c: TokenCall, answer: Result<Answer, string>, gap1: seq<Step>, gap2: seq<Step>)
    : (Db, Result<Tokens, CallError>)
  {
    if c.caller != c.owner then (db, Err(OwnerMismatch))
    else if !Usable(db, c) then (db, Err(RevokedOrAbsent))
    else if !c.readable || db.grants[c.grant].credential.None? then (db, Err(CannotOpen))
    else
      var t := db.grants[c.grant].credential.value;
      if !NeedsRefresh(t, c) then (db, Ok(t))
      else
        var d := Run(db, gap1);
        match answer
        case Err(e) => RefreshFailure(d, c, e, gap2)
        case Ok(a) =>
          var s := SessionOf(c, Renewed(t, a));
          if Updates(d, s) then (UpdateTokens(d, s), Ok(s.tokens))
          else RefreshFailure(d, c, "grant changed during refresh", gap2)
  }

  /** The call answers with the grant's own refresh token unless it was connected again in between. */
  lemma CallKeepsRefreshToken(db: Db, c: TokenCall, answer: Result<Answer, string>, gap1: seq<Step>, gap2: seq<Step>)
    requires Inv(db) && Called(db, c, answer, gap1, gap2).1.Ok? && c.grant in db.grants
             && db.grants[c.grant].credential.Some?
    requires forall k | 0 <= k < |gap1| :: !Connects(gap1[k], db.grants[c.grant])
    requires CallsAgree(db, c.grant, db.grants[c.grant].credential.value.refresh)
    ensures var (d, r) := Called(db, c, answer, gap1, gap2);
            && r.value.refresh == db.grants[c.grant].credential.value.refresh
            && KeepsToken(d, c.grant, r.value.refresh) && CallsAgree(d, c.grant, r.value.refresh)
            && d.grants[c.grant].credential == Some(r.value)
  {
    RefreshTokenIsTheConnected(db, gap1, c.grant, db.grants[c.grant].credential.value.refresh);
  }

  /** After a failed refresh the grant is revoked or waits, with its error, for another refresh. */
  lemma FailedRefreshIsVisible(db: Db, c: TokenCall, answer: Result<Answer, string>, gap1: seq<Step>, gap2: seq<Step>)
    requires Inv(db) && Called(db, c, answer, gap1, gap2).1 == Err(RefreshFailed)
    ensures var d := Called(db, c, answer, gap1, gap2).0;
            && c.grant in d.grants && d.grants[c.grant].status in {Revoked, RefreshRequired}
            && (d.grants[c.grant].status == RefreshRequired ==> d.grants[c.grant].lastError.Some?)
  {
    RunKeepsGrantKey(db, gap1, c.grant);
    RunKeepsGrantKey(Run(db, gap1), gap2, c.grant);
  }

  lemma {:induction false} RunKeepsGrantKey(db: Db, steps: seq<Step>, id: string)
    requires id in db.grants
    ensures id in Run(db, steps).grants && GrantKey(Run(db, steps).grants[id]) == GrantKey(db.grants[id])
    decreases |steps|
  {
    if steps != [] {
      StepKeepsGrantKey(db, steps[0], id);
      RunKeepsGrantKey(Exec(db, steps[0]), steps[1..], id);
    }
  }

  class Database {
    var now: nat
    var grants: map<string, Grant>
    var sources: map<string, Source>
    var nonces: map<string, Nonce>
    var audits: map<nat, Audit>
    var nextAudit: nat
    var sessions: map<nat, Session>

    ghost function State(): Db
      reads this
    {
      Db(now, grants, sources, nonces, audits, nextAudit, sessions)
    }

    ghost predicate Valid()
      reads this
    {
      Inv(State())
    }

    constructor ()
      ensures Valid() && State() == EMPTY
    {
      now, grants, sources, nonces := 0, map[], map[], map[];
      audits, nextAudit, sessions := map[], 0, map[];
    }

    /* ---------------- nonces ---------------- */

    method RegisterStateNonce(hash: string, n: Nonce)
      requires Valid()
      modifies this
      ensures Valid() && State() == RegisterNonce(old(State()), hash, n)
    {
      StepKeepsInv(State(), Register(hash, n));
      if hash != "" && n.workspace != "" && n.user != "" && hash !in nonces {
        nonces := nonces[hash := n.(consumed := None)];
      }
    }

    method ClaimStateNonce(hash: string, workspace: string, user: string, provider: Provider) returns (claimed: bool)
      requires Valid()
      modifies this
      ensures Valid() && State() == ClaimNonce(old(State()), hash, workspace, user, provider)
      ensures claimed == Claims(old(State()), hash, workspace, user, provider)
    {
      StepKeepsInv(State(), Claim(hash, workspace, user, provider));
      claimed := hash in nonces && NonceMatch(nonces[hash], workspace, user, provider)
                 && nonces[hash].consumed.None? && nonces[hash].expires > now;
      if claimed {
        nonces := nonces[hash := nonces[hash].(consumed := Some(now))];
      }
    }

    /* ---------------- connect ---------------- */

    method SelectGrant(workspace: string, user: string, account: string) returns (r: Option<string>)
      requires Valid()
      ensures r == FindGrant(State(), workspace, user, account)
    {
      if i :| i in grants && GrantMatch(grants[i], workspace, user, account) {
        r := Some(i);
      } else {
        r := None;
      }
    }

    method SelectSource(workspace: string, user: string, provider: Provider) returns (r: Option<string>)
      requires Valid()
      ensures r == FindSource(State(), workspace, user, provider)
    {
      if i :| i in sources && SourceMatch(sources[i], workspace, user, provider) {
        r := Some(i);
      } else {
        r := None;
      }
    }

    method ConnectConnectorSource(c: Connection) returns (r: Result<(string, string), Error>)
      requires Valid()
      modifies this
      ensures Valid() && State() == Connect(old(State()), c)
      ensures r == if ConnectError(old(State()), c).Some? then Err(ConnectError(old(State()), c).value)
                   else Ok((GrantIdOf(old(State()), c), SourceIdOf(old(State()), c)))
    {
      ConnectKeepsInv(State(), c);
      if c.workspace == "" || c.user == "" || c.id == "" || c.account == "" {
        return Err(Incomplete);
      }
      var grant := SelectGrant(c.workspace, c.user, c.account);
      var source := SelectSource(c.workspace, c.user, c.provider);
      r := WriteConnection(c, grant, source);
    }

    method WriteConnection(c: Connection, grant: Option<string>, source: Option<string>)
      returns (r: Result<(string, string), Error>)
      requires grant == FindGrant(State(), c.workspace, c.user, c.account)
      requires source == FindSource(State(), c.workspace, c.user, c.provider)
      requires ConnectError(State(), c) != Some(Incomplete)
      modifies this
      ensures State() == Connect(old(State()), c)
      ensures r == if ConnectError(old(State()), c).Some? then Err(ConnectError(old(State()), c).value)
                   else Ok((GrantIdOf(old(State()), c), SourceIdOf(old(State()), c)))
    {
      if (grant.None? && c.id in grants) || (source.None? && c.sourceId in sources) {
        return Err(DuplicateRow);
      }
      var g := if grant.Some? then grant.value else c.id;
      var s := if source.Some? then source.value else c.sourceId;
      grants := grants[g := ConnectedGrant(c)];
      sources := sources[s := ConnectedSource(c, g)];
      audits := audits[nextAudit := Audit(SourceConnect, c.workspace, c.user, s, g)];
      nextAudit := nextAudit + 1;
      r := Ok((g, s));
    }

    /* ---------------- tokens ---------------- */

    method UpdateGrantTokens(s: Session) returns (persisted: bool)
      requires Valid()
      modifies this
      ensures Valid() && State() == UpdateTokens(old(State()), s)
      ensures persisted == Updates(old(State()), s)
    {
      TokenStatementsKeepInv(State(), s, "");
      persisted := s.grant in grants && grants[s.grant].workspace == s.workspace && grants[s.grant].user == s.user
                   && (grants[s.grant].status == Active || grants[s.grant].status == RefreshRequired);
      if persisted {
        var t := s.tokens;
        grants := grants[s.grant := grants[s.grant].(
          credential := Some(t), scopes := t.scopes, accessExpires := t.expires, lastError := None, status := Active)];
      }
    }

    method MarkGrantRefreshError(id: string, workspace: string, user: string, error: string)
      requires Valid()
      modifies this
      ensures Valid() && State() == MarkRefreshError(old(State()), id, workspace, user, error)
    {
      TokenStatementsKeepInv(State(), Session(workspace, user, id, Tokens("", "", "", None, [])), error);
      if id in grants && grants[id].workspace == workspace && grants[id].user == user && grants[id].status != Revoked {
        var text := if |error| > 500 then error[..500] else error;
        grants := grants[id := grants[id].(status := RefreshRequired, lastError := Some(text))];
      }
    }

    method GetAccessToken(c: TokenCall, answer: Result<Answer, string>, gap1: seq<Step>, gap2: seq<Step>)
      returns (r: Result<Tokens, CallError>)
      requires Valid()
      modifies this
      ensures Valid() && (State(), r) == Called(old(State()), c, answer, gap1, gap2)
    {
      if c.caller != c.owner {
        return Err(OwnerMismatch);
      }
      if c.grant !in grants || grants[c.grant].workspace != c.workspace || grants[c.grant].user != c.owner
         || grants[c.grant].status == Revoked {
        return Err(RevokedOrAbsent);
      }
      var sealed := grants[c.grant].credential;
      if !c.readable || sealed.None? {
        return Err(CannotOpen);
      }
      var tokens := sealed.value;
      if !NeedsRefresh(tokens, c) {
        return Ok(tokens);
      }
      OtherCalls(gap1);
      var error := "grant changed during refresh";
      if answer.Ok? {
        tokens := Renewed(tokens, answer.value);
        var persisted := UpdateGrantTokens(SessionOf(c, tokens));
        if persisted {
          return Ok(tokens);
        }
      } else {
        error := answer.error;
      }
      OtherCalls(gap2);
      MarkGrantRefreshError(c.grant, c.workspace, c.owner, error);
      r := Err(RefreshFailed);
    }

    method StartCall(call: nat, workspace: string, user: string, grant: string)
      requires Valid()
      modifies this
      ensures Valid() && State() == BeginCall(old(State()), call, workspace, user, grant)
    {
      StepKeepsInv(State(), Begin(call, workspace, user, grant));
      if grant in grants && grants[grant].workspace == workspace && grants[grant].user == user
         && grants[grant].status != Revoked && grants[grant].credential.Some? {
        sessions := sessions[call := Session(workspace, user, grant, grants[grant].credential.value)];
      }
    }

    method FinishCall(call: nat, answer: Answer)
      requires Valid()
      modifies this
      ensures Valid() && State() == WriteBack(old(State()), call, answer)
    {
      StepKeepsInv(State(), Write(call, answer));
      if call in sessions {
        var s := sessions[call];
        var persisted := UpdateGrantTokens(s.(tokens := Renewed(s.tokens, answer)));
        if persisted {
          sessions := sessions - {call};
        }
      }
    }

    method AbandonCall(call: nat, error: string)
      requires Valid()
      modifies this
      ensures Valid() && State() == FailCall(old(State()), call, error)
    {
      StepKeepsInv(State(), Fail(call, error));
      if call in sessions {
        var s := sessions[call];
        MarkGrantRefreshError(s.grant, s.workspace, s.user, error);
        sessions := sessions - {call};
      }
    }

    /* ---------------- disconnect ---------------- */

    method CountActiveSources(workspace: string, user: string, grant: string) returns (n: nat)
      ensures n == |LiveSources(State(), workspace, user, grant)|
    {
      var live := set i | i in sources && LiveOn(sources[i], workspace, user, grant);
      assert live == LiveSources(State(), workspace, user, grant);
      n := |live|;
    }

    method DisconnectSharedSource(d: Disconnect) returns (r: Result<set<string>, Error>)
      requires Valid()
      modifies this
      ensures Valid() && State() == DisconnectShared(old(State()), d)
      ensures r == SharedAnswer(old(State()), d)
    {
      SharedKeepsInv(State(), d);
      if d.grant == "" {
        return Err(Incomplete);
      }
      var n := CountActiveSources(d.workspace, d.user, d.grant);
      if d.source !in sources || !LiveOn(sources[d.source], d.workspace, d.user, d.grant) || n <= 1 {
        return Err(CardinalityChanged);
      }
      sources := sources[d.source := sources[d.source].(live := false)];
      audits := audits[nextAudit := DisconnectAudit(d)];
      nextAudit := nextAudit + 1;
      r := Ok({d.source});
    }

    method DisconnectLastSource(d: Disconnect) returns (r: Result<set<string>, Error>)
      requires Valid()
      modifies this
      ensures Valid() && State() == DisconnectLast(old(State()), d)
      ensures r == LastAnswer(old(State()), d)
    {
      LastKeepsInv(State(), d);
      if d.grant == "" {
        return Err(Incomplete);
      }
      if d.grant !in grants || grants[d.grant].workspace != d.workspace || grants[d.grant].user != d.user
         || grants[d.grant].status == Revoked {
        return Err(CardinalityChanged);
      }
      r := RevokeAndEnd(d);
    }

    method RevokeAndEnd(d: Disconnect) returns (r: Result<set<string>, Error>)
      requires Revokes(State(), d)
      modifies this
      ensures State() == DisconnectLast(old(State()), d)
      ensures r == LastAnswer(old(State()), d)
    {
      var ended := set i | i in sources && LiveOn(sources[i], d.workspace, d.user, d.grant);
      assert ended == LiveFor(State(), d);
      grants := grants[d.grant := RevokedGrant(grants[d.grant], d.verifiedAt)];
      sources := map i | i in sources ::
        if LiveOn(sources[i], d.workspace, d.user, d.grant) then sources[i].(live := false) else sources[i];
      if d.source !in ended {
        return Err(CardinalityChanged);
      }
      audits := audits[nextAudit := DisconnectAudit(d)];
      nextAudit := nextAudit + 1;
      r := Ok(ended);
    }

    /* ---------------- other calls ---------------- */

    method ExecuteStep(s: Step)
      requires Valid()
      modifies this
      ensures Valid() && State() == Exec(old(State()), s)
    {
      StepKeepsInv(State(), s);
      match s {
        case Tick(dt) => now := now + dt;
        case Register(hash, n) => RegisterStateNonce(hash, n);
        case Claim(hash, w, u, p) => var _ := ClaimStateNonce(hash, w, u, p);
        case ConnectSource(c) => var _ := ConnectConnectorSource(c);
        case Begin(call, w, u, g) => StartCall(call, w, u, g);
        case Write(call, a) => FinishCall(call, a);
        case Fail(call, e) => AbandonCall(call, e);
        case Shared(d) => var _ := DisconnectSharedSource(d);
        case Last(d) => var _ := DisconnectLastSource(d);
      }
    }

    method OtherCalls(steps: seq<Step>)
      requires Valid()
      modifies this
      ensures Valid() && State() == Run(old(State()), steps)
    {
      ghost var before := State();
      for i := 0 to |steps|
        invariant Valid() && State() == Run(before, steps[..i])
      {
        RunAppend(before, steps[..i], [steps[i]]);
        assert steps[..i + 1] == steps[..i] + [steps[i]];
        ExecuteStep(steps[i]);
      }
      assert steps[..|steps|] == steps;
    }
  }
}
