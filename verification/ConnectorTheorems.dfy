/** What holds of connector grants and sources while connects, refreshes and disconnects interleave. */
module ConnectorTheorems {
  import opened Wrappers
  import opened ConnectorStore

  /* ---------------- the invariant ---------------- */

  lemma ConnectKeepsInv(db: Db, c: Connection)
    requires Inv(db)
    ensures Inv(Connect(db, c))
  {
    if ConnectError(db, c).None? {
      var d, g, s := Connect(db, c), GrantIdOf(db, c), SourceIdOf(db, c);
      forall i | i in d.sources ensures Bound(d, d.sources[i]) {
        assert i in db.sources ==> Bound(db, db.sources[i]);
      }
      assert forall i | i in db.grants && i != g :: !GrantMatch(db.grants[i], c.workspace, c.user, c.account);
      assert forall i | i in db.sources && i != s :: !SourceMatch(db.sources[i], c.workspace, c.user, c.provider);
    }
  }

  /** Every row keeps its identity columns. */
  ghost predicate SameKeys(db: Db, d: Db) {
    && d.grants.Keys == db.grants.Keys && d.sources.Keys == db.sources.Keys
    && (forall i {:trigger GrantKey(d.grants[i])} | i in db.grants :: GrantKey(d.grants[i]) == GrantKey(db.grants[i]))
    && (forall i {:trigger SourceKey(d.sources[i])} | i in db.sources ::
          SourceKey(d.sources[i]) == SourceKey(db.sources[i]))
  }

  lemma SameKeysStayUnique(db: Db, d: Db)
    requires UniqueGrants(db) && UniqueSources(db) && SameKeys(db, d)
    ensures UniqueGrants(d) && UniqueSources(d)
  {
    forall i, j | i in d.grants && j in d.grants && GrantKey(d.grants[i]) == GrantKey(d.grants[j]) ensures i == j {
      assert GrantKey(db.grants[i]) == GrantKey(db.grants[j]);
    }
    forall i, j | i in d.sources && j in d.sources && SourceKey(d.sources[i]) == SourceKey(d.sources[j])
      ensures i == j
    {
      assert SourceKey(db.sources[i]) == SourceKey(db.sources[j]);
    }
  }

  lemma GrantUpdateKeepsInv(db: Db, d: Db, id: string, g: Grant)
    requires Inv(db) && id in db.grants && d.grants == db.grants[id := g] && HoldsCredential(g)
    requires GrantMatch(g, db.grants[id].workspace, db.grants[id].user, db.grants[id].account)
    requires (g.status == Revoked) == (db.grants[id].status == Revoked)
    requires d.sources == db.sources && d.audits == db.audits && d.nextAudit == db.nextAudit
    ensures Inv(d)
  {
    SameKeysStayUnique(db, d);
    forall i | i in d.sources ensures Bound(d, d.sources[i]) {
      assert Bound(db, db.sources[i]);
    }
  }

  lemma TokenStatementsKeepInv(db: Db, s: Session, error: string)
    requires Inv(db)
    ensures Inv(UpdateTokens(db, s)) && Inv(MarkRefreshError(db, s.grant, s.workspace, s.user, error))
  {
    var d, e := UpdateTokens(db, s), MarkRefreshError(db, s.grant, s.workspace, s.user, error);
    if Updates(db, s) {
      GrantUpdateKeepsInv(db, d, s.grant, d.grants[s.grant]);
    }
    if OwnedGrant(db, s.grant, s.workspace, s.user) && db.grants[s.grant].status != Revoked {
      GrantUpdateKeepsInv(db, e, s.grant, e.grants[s.grant]);
    }
  }

  lemma SharedKeepsKeys(db: Db, d: Disconnect)
    ensures SameKeys(db, DisconnectShared(db, d))
  {
  }

  lemma SharedKeepsBound(db: Db, d: Disconnect, i: string)
    requires i in db.sources && Bound(db, db.sources[i])
    ensures i in DisconnectShared(db, d).sources && Bound(DisconnectShared(db, d), DisconnectShared(db, d).sources[i])
  {
  }

  lemma SharedKeepsInv(db: Db, d: Disconnect)
    requires Inv(db)
    ensures Inv(DisconnectShared(db, d))
  {
    var e := DisconnectShared(db, d);
    SharedKeepsKeys(db, d);
    SameKeysStayUnique(db, e);
    forall i | i in e.sources ensures Bound(e, e.sources[i]) {
      SharedKeepsBound(db, d, i);
    }
  }

  lemma LastKeepsKeys(db: Db, d: Disconnect)
    ensures SameKeys(db, DisconnectLast(db, d))
  {
  }

  lemma LastKeepsBound(db: Db, d: Disconnect, i: string)
    requires i in db.sources && Bound(db, db.sources[i])
    ensures i in DisconnectLast(db, d).sources && Bound(DisconnectLast(db, d), DisconnectLast(db, d).sources[i])
  {
  }

  lemma LastKeepsCredentials(db: Db, d: Disconnect)
    requires forall i | i in db.grants :: HoldsCredential(db.grants[i])
    requires forall i | i in db.audits :: i < db.nextAudit
    ensures forall i | i in DisconnectLast(db, d).grants :: HoldsCredential(DisconnectLast(db, d).grants[i])
    ensures forall i | i in DisconnectLast(db, d).audits :: i < DisconnectLast(db, d).nextAudit
  {
  }

  lemma LastKeepsInv(db: Db, d: Disconnect)
    requires Inv(db)
    ensures Inv(DisconnectLast(db, d))
  {
    LastKeepsKeys(db, d);
    LastKeepsCredentials(db, d);
    LastIsSound(db, d, DisconnectLast(db, d));
  }

  lemma LastIsSound(db: Db, d: Disconnect, e: Db)
    requires Inv(db) && e == DisconnectLast(db, d) && SameKeys(db, e)
    requires forall i | i in e.grants :: HoldsCredential(e.grants[i])
    requires forall i | i in e.audits :: i < e.nextAudit
    ensures Inv(e)
  {
    SameKeysStayUnique(db, e);
    forall i | i in e.sources ensures Bound(e, e.sources[i]) {
      LastKeepsBound(db, d, i);
    }
  }

  lemma WriteBackKeepsInv(db: Db, call: nat, a: Answer)
    requires Inv(db)
    ensures Inv(WriteBack(db, call, a))
  {
    if call in db.sessions {
      var t := db.sessions[call].(tokens := Renewed(db.sessions[call].tokens, a));
      TokenStatementsKeepInv(db, t, "");
      OtherFieldsDoNotMatter(UpdateTokens(db, t), WriteBack(db, call, a));
    }
  }

  lemma FailCallKeepsInv(db: Db, call: nat, error: string)
    requires Inv(db)
    ensures Inv(FailCall(db, call, error))
  {
    if call in db.sessions {
      var t := db.sessions[call];
      TokenStatementsKeepInv(db, t, error);
      OtherFieldsDoNotMatter(MarkRefreshError(db, t.grant, t.workspace, t.user, error), FailCall(db, call, error));
    }
  }

  lemma StepKeepsInv(db: Db, s: Step)
    requires Inv(db)
    ensures Inv(Exec(db, s))
  {
    match s
    case Tick(dt) => OtherFieldsDoNotMatter(db, Exec(db, s));
    case Register(hash, n) => OtherFieldsDoNotMatter(db, Exec(db, s));
    case Claim(hash, w, u, p) => OtherFieldsDoNotMatter(db, Exec(db, s));
    case ConnectSource(c) => ConnectKeepsInv(db, c);
    case Begin(call, w, u, g) => OtherFieldsDoNotMatter(db, Exec(db, s));
    case Write(call, a) => WriteBackKeepsInv(db, call, a);
    case Fail(call, error) => FailCallKeepsInv(db, call, error);
    case Shared(d) => SharedKeepsInv(db, d);
    case Last(d) => LastKeepsInv(db, d);
  }

  lemma OtherFieldsDoNotMatter(db: Db, d: Db)
    requires Inv(db)
    requires d.grants == db.grants && d.sources == db.sources && d.audits == db.audits && d.nextAudit == db.nextAudit
    ensures Inv(d)
  {
    forall i | i in d.sources ensures Bound(d, d.sources[i]) {
      assert Bound(db, db.sources[i]);
    }
  }

  /**
   In every reachable state each live source points to a non-revoked grant of its own workspace and
   user, and exactly the revoked grants hold no credential.
   */
  lemma {:induction false} RunKeepsInv(db: Db, steps: seq<Step>)
    requires Inv(db)
    ensures Inv(Run(db, steps))
    decreases |steps|
  {
    if steps != [] {
      StepKeepsInv(db, steps[0]);
      RunKeepsInv(Exec(db, steps[0]), steps[1..]);
    }
  }

  /**
   From the empty tables, however connects, token calls and disconnects interleave: a live source has a
   grant of its own workspace and user that is not revoked, and exactly the revoked grants hold no
   credential.
   */
  lemma LiveSourcesHaveLiveGrants(steps: seq<Step>)
    ensures var d := Run(EMPTY, steps);
            && (forall i | i in d.sources && d.sources[i].live ::
                  && d.sources[i].grant in d.grants
                  && d.grants[d.sources[i].grant].workspace == d.sources[i].workspace
                  && d.grants[d.sources[i].grant].user == d.sources[i].user
                  && d.grants[d.sources[i].grant].status != Revoked)
            && (forall g | g in d.grants :: d.grants[g].status == Revoked <==> d.grants[g].credential.None?)
  {
    RunKeepsInv(EMPTY, steps);
    var d := Run(EMPTY, steps);
    assert forall i | i in d.sources :: Bound(d, d.sources[i]);
    assert forall g | g in d.grants :: HoldsCredential(d.grants[g]);
  }

  lemma {:induction false} RunAppend(db: Db, a: seq<Step>, b: seq<Step>)
    ensures Run(db, a + b) == Run(Run(db, a), b)
    decreases |a|
  {
    if a == [] {
      assert a + b == b;
    } else {
      assert (a + b)[1..] == a[1..] + b;
      RunAppend(Exec(db, a[0]), a[1..], b);
    }
  }

  /* ---------------- revoked until the next connect ---------------- */

  predicate Connects(s: Step, g: Grant) {
    s.ConnectSource? && GrantMatch(g, s.connection.workspace, s.connection.user, s.connection.account)
  }

  /** No step but a connect of the same identity takes a grant out of the revoked state. */
  lemma StepKeepsRevoked(db: Db, s: Step, id: string)
    requires id in db.grants && db.grants[id].status == Revoked && !Connects(s, db.grants[id])
    ensures id in Exec(db, s).grants && Exec(db, s).grants[id] == db.grants[id]
  {
  }

  lemma {:induction false} RevokedUntilConnect(db: Db, steps: seq<Step>, id: string)
    requires Inv(db) && id in db.grants && db.grants[id].status == Revoked
    requires forall k | 0 <= k < |steps| :: !Connects(steps[k], db.grants[id])
    ensures id in Run(db, steps).grants && Run(db, steps).grants[id] == db.grants[id]
    ensures db.grants[id].credential.None?
    ensures LiveSources(Run(db, steps), db.grants[id].workspace, db.grants[id].user, id) == {}
    decreases |steps|
  {
    if steps == [] {
      assert forall i | i in db.sources :: Bound(db, db.sources[i]);
    } else {
      StepKeepsRevoked(db, steps[0], id);
      StepKeepsInv(db, steps[0]);
      RevokedUntilConnect(Exec(db, steps[0]), steps[1..], id);
    }
  }

  /* ---------------- disconnects ---------------- */

  /** A shared disconnect takes exactly one live source and leaves at least one, with the grant as it was. */
  lemma SharedLeavesOne(db: Db, d: Disconnect)
    ensures SharedAnswer(db, d).Err? ==> DisconnectShared(db, d) == db
    ensures SharedAnswer(db, d).Ok? ==>
              && LiveFor(DisconnectShared(db, d), d) == LiveFor(db, d) - {d.source}
              && LiveFor(DisconnectShared(db, d), d) != {}
              && DisconnectShared(db, d).grants == db.grants
  {
    if SharedApplies(db, d) {
      assert LiveFor(DisconnectShared(db, d), d) == LiveFor(db, d) - {d.source};
      assert |LiveFor(db, d) - {d.source}| == |LiveFor(db, d)| - 1;
    }
  }

  /** Of two shared disconnects of a grant with two live sources, in either order, only one succeeds. */
  lemma LastOneStays(db: Db, a: Disconnect, b: Disconnect)
    requires a.workspace == b.workspace && a.user == b.user && a.grant == b.grant && |LiveFor(db, a)| == 2
    requires SharedAnswer(db, a).Ok?
    ensures SharedAnswer(DisconnectShared(db, a), b).Err?
  {
    SharedLeavesOne(db, a);
  }

  /** Which live sources of a grant a step may end: those of its own disconnect only. */
  lemma LastEndsExactlyTheGrant(db: Db, d: Disconnect)
    requires Inv(db) && Revokes(db, d)
    ensures var e := DisconnectLast(db, d);
            && e.sources.Keys == db.sources.Keys
            && (forall i | i in db.sources ::
                e.sources[i] == db.sources[i].(live := db.sources[i].live && db.sources[i].grant != d.grant))
            && (forall i | i in db.grants && i != d.grant :: i in e.grants && e.grants[i] == db.grants[i])
            && e.grants[d.grant].status == Revoked && LiveFor(e, d) == {}
  {
    forall i | i in db.sources && db.sources[i].grant == d.grant
      ensures db.sources[i].workspace == d.workspace && db.sources[i].user == d.user
    {
      assert Bound(db, db.sources[i]);
    }
  }

  /**
   The last-source disconnect leaves all tables alone exactly when the grant is not the caller's own
   live one; a refusal alone does not mean that.
   */
  lemma LastChangesNothingExactly(db: Db, d: Disconnect)
    ensures DisconnectLast(db, d) == db <==> !Revokes(db, d)
    ensures LastAnswer(db, d).Err? <==> !Revokes(db, d) || d.source !in LiveFor(db, d)
  {
    if Revokes(db, d) {
      assert DisconnectLast(db, d).grants[d.grant].status == Revoked;
    }
  }

  /** A refused call that nevertheless revoked the grant: its source had been disconnected before. */
  lemma RefusedButRevoked()
    ensures var t := Tokens("a", "r", "Bearer", None, []);
            var c := Connection("g", "w", "u", "acct", None, [], t, None, "s", Gmail);
            var d := Disconnect("w", "u", "other", "g", "2026-01-01");
            var db := Connect(EMPTY, c);
            LastAnswer(db, d).Err? && DisconnectLast(db, d).grants["g"].status == Revoked
            && LiveFor(db, d) == {"s"} && LiveFor(DisconnectLast(db, d), d) == {}
  {
    var t := Tokens("a", "r", "Bearer", None, []);
    var c := Connection("g", "w", "u", "acct", None, [], t, None, "s", Gmail);
    var d := Disconnect("w", "u", "other", "g", "2026-01-01");
    var db := Connect(EMPTY, c);
    assert FindGrant(EMPTY, "w", "u", "acct").None? && FindSource(EMPTY, "w", "u", Gmail).None?;
    assert db.sources == map["s" := ConnectedSource(c, "g")];
    assert "s" in LiveFor(db, d) && "other" !in db.sources;
  }

  /* ---------------- grants without a live source ---------------- */

  /** A grant that is not revoked has a live source. */
  predicate Served(db: Db, g: string)
    requires g in db.grants
  {
    db.grants[g].status != Revoked ==> LiveSources(db, db.grants[g].workspace, db.grants[g].user, g) != {}
  }

  predicate AllServed(db: Db) {
    forall g | g in db.grants :: Served(db, g)
  }

  /** The connect moves a source away from the grant of another account whose only live source it is. */
  ghost predicate TakesOnlySource(db: Db, c: Connection) {
    var s := FindSource(db, c.workspace, c.user, c.provider);
    && ConnectError(db, c).None? && s.Some? && db.sources[s.value].grant != GrantIdOf(db, c)
    && LiveSources(db, c.workspace, c.user, db.sources[s.value].grant) == {s.value}
  }

  /** What a connect does to the live sources of the grants it does not end on. */
  lemma ConnectMovesOneSource(db: Db, c: Connection, g: string)
    requires Inv(db) && ConnectError(db, c).None? && g in db.grants && g != GrantIdOf(db, c)
    ensures var d, s := Connect(db, c), SourceIdOf(db, c);
            && g in d.grants && d.grants[g] == db.grants[g]
            && var w, u := db.grants[g].workspace, db.grants[g].user;
               LiveSources(d, w, u, g) == LiveSources(db, w, u, g) - {s}
  {
  }

  lemma ConnectServesItsGrant(db: Db, c: Connection)
    requires ConnectError(db, c).None?
    ensures var d, g := Connect(db, c), GrantIdOf(db, c); g in d.grants && Served(d, g)
  {
    var d, g := Connect(db, c), GrantIdOf(db, c);
    assert SourceIdOf(db, c) in LiveSources(d, c.workspace, c.user, g);
  }

  /** A connect keeps every grant served exactly when it takes no other grant's only live source. */
  lemma ConnectKeepsServedExactly(db: Db, c: Connection)
    requires Inv(db) && AllServed(db)
    ensures AllServed(Connect(db, c)) <==> !TakesOnlySource(db, c)
  {
    if ConnectError(db, c).None? {
      var d, s := Connect(db, c), SourceIdOf(db, c);
      ConnectServesItsGrant(db, c);
      if TakesOnlySource(db, c) {
        var g := db.sources[s].grant;
        assert s in LiveSources(db, c.workspace, c.user, g);
        assert Bound(db, db.sources[s]);
        ConnectMovesOneSource(db, c, g);
        assert !Served(d, g);
      } else {
        forall g | g in d.grants ensures Served(d, g) {
          if g != GrantIdOf(db, c) {
            ConnectMovesOneSource(db, c, g);
            OtherGrantStaysServed(db, c, g);
          }
        }
      }
    }
  }

  lemma OtherGrantStaysServed(db: Db, c: Connection, g: string)
    requires Inv(db) && ConnectError(db, c).None? && g in db.grants && g != GrantIdOf(db, c)
    requires Served(db, g) && !TakesOnlySource(db, c)
    requires Connect(db, c).grants[g] == db.grants[g]
    requires var w, u := db.grants[g].workspace, db.grants[g].user;
             LiveSources(Connect(db, c), w, u, g) == LiveSources(db, w, u, g) - {SourceIdOf(db, c)}
    ensures Served(Connect(db, c), g)
  {
    var s, live := SourceIdOf(db, c), LiveSources(db, db.grants[g].workspace, db.grants[g].user, g);
    assert live - {s} == {} ==> live <= {s};
    if s in live {
      assert FindSource(db, c.workspace, c.user, c.provider).Some?;
    }
  }

  /** No other step leaves a grant unserved: the disconnects end a grant with its last source or spare one. */
  lemma OtherStepsKeepServed(db: Db, s: Step)
    requires Inv(db) && AllServed(db) && !s.ConnectSource?
    ensures AllServed(Exec(db, s))
  {
    if s.Shared? {
      SharedKeepsServed(db, s.disconnect);
    } else if s.Last? {
      LastKeepsServed(db, s.disconnect);
    } else {
      forall g | g in db.grants ensures TokenStepKeeps(db, Exec(db, s), g) {
        TokenStepOnGrant(db, s, g);
      }
      TokenStepOnTables(db, s);
      SourcesUntouchedKeepServed(db, Exec(db, s));
    }
  }

  predicate TokenStepKeeps(db: Db, d: Db, g: string) {
    && g in db.grants && g in d.grants && d.grants[g].workspace == db.grants[g].workspace
    && d.grants[g].user == db.grants[g].user
    && (d.grants[g].status == Revoked <==> db.grants[g].status == Revoked)
  }

  lemma TokenStepOnGrant(db: Db, s: Step, g: string)
    requires g in db.grants && !s.ConnectSource? && !s.Shared? && !s.Last?
    ensures TokenStepKeeps(db, Exec(db, s), g)
  {
  }

  lemma TokenStepOnTables(db: Db, s: Step)
    requires !s.ConnectSource? && !s.Shared? && !s.Last?
    ensures Exec(db, s).sources == db.sources && Exec(db, s).grants.Keys == db.grants.Keys
  {
  }

  lemma SourcesUntouchedKeepServed(db: Db, d: Db)
    requires AllServed(db) && d.sources == db.sources && d.grants.Keys == db.grants.Keys
    requires forall g | g in db.grants :: TokenStepKeeps(db, d, g)
    ensures AllServed(d)
  {
    forall g | g in d.grants ensures Served(d, g) {
      assert Served(db, g) && TokenStepKeeps(db, d, g);
      assert LiveSources(d, db.grants[g].workspace, db.grants[g].user, g)
             == LiveSources(db, db.grants[g].workspace, db.grants[g].user, g);
    }
  }

  lemma SharedKeepsServed(db: Db, d: Disconnect)
    requires Inv(db) && AllServed(db)
    ensures AllServed(DisconnectShared(db, d))
  {
    SharedLeavesOne(db, d);
    if SharedApplies(db, d) {
      var e := DisconnectShared(db, d);
      assert Bound(db, db.sources[d.source]);
      forall g | g in e.grants ensures Served(e, g) {
        assert Served(db, g);
        var w, u := db.grants[g].workspace, db.grants[g].user;
        if g != d.grant {
          assert LiveSources(e, w, u, g) == LiveSources(db, w, u, g);
        } else {
          assert LiveSources(e, w, u, g) == LiveFor(e, d);
        }
      }
    }
  }

  lemma LastKeepsServed(db: Db, d: Disconnect)
    requires Inv(db) && AllServed(db)
    ensures AllServed(DisconnectLast(db, d))
  {
    if Revokes(db, d) {
      var e := DisconnectLast(db, d);
      LastEndsExactlyTheGrant(db, d);
      forall g | g in e.grants ensures Served(e, g) {
        assert Served(db, g);
        if g != d.grant {
          var w, u := db.grants[g].workspace, db.grants[g].user;
          assert LiveSources(e, w, u, g) == LiveSources(db, w, u, g);
        }
      }
    }
  }

  /** Every state of the run, from the first to the last, has all its grants served. */
  ghost predicate ServedThroughout(db: Db, steps: seq<Step>)
    decreases |steps|
  {
    AllServed(db) && (steps == [] || ServedThroughout(Exec(db, steps[0]), steps[1..]))
  }

  /** No connect of the run takes a grant's only live source, in the state it meets. */
  ghost predicate NeverTakesOnlySource(db: Db, steps: seq<Step>)
    decreases |steps|
  {
    steps == []
    || (&& (steps[0].ConnectSource? ==> !TakesOnlySource(db, steps[0].connection))
        && NeverTakesOnlySource(Exec(db, steps[0]), steps[1..]))
  }

  /** Non-revoked grants keep a live source throughout a run exactly while no connect takes the only one. */
  lemma {:induction false} ServedThroughoutExactly(db: Db, steps: seq<Step>)
    requires Inv(db) && AllServed(db)
    ensures ServedThroughout(db, steps) <==> NeverTakesOnlySource(db, steps)
    decreases |steps|
  {
    if steps != [] {
      var s := steps[0];
      var d := Exec(db, s);
      StepKeepsInv(db, s);
      if s.ConnectSource? {
        ConnectKeepsServedExactly(db, s.connection);
      } else {
        OtherStepsKeepServed(db, s);
      }
      if AllServed(d) {
        ServedThroughoutExactly(d, steps[1..]);
      }
    }
  }

  /** The shortest run that does: one source connected to one account and then to another. */
  lemma SecondAccountTakesTheOnlySource()
    ensures var t := Tokens("a", "r", "Bearer", None, []);
            var c := Connection("g1", "w", "u", "first", None, [], t, None, "s1", Gmail);
            var d := c.(id := "g2", account := "second", sourceId := "s2");
            AllServed(Connect(EMPTY, c)) && TakesOnlySource(Connect(EMPTY, c), d)
              && !AllServed(Connect(Connect(EMPTY, c), d))
  {
    var t := Tokens("a", "r", "Bearer", None, []);
    var c := Connection("g1", "w", "u", "first", None, [], t, None, "s1", Gmail);
    var d := c.(id := "g2", account := "second", sourceId := "s2");
    var db := Connect(EMPTY, c);
    ConnectKeepsServedExactly(EMPTY, c);
    ConnectKeepsInv(EMPTY, c);
    assert FindGrant(EMPTY, "w", "u", "first").None? && FindSource(EMPTY, "w", "u", Gmail).None?;
    assert db.sources == map["s1" := ConnectedSource(c, "g1")] && db.grants == map["g1" := ConnectedGrant(c)];
    assert SourceMatch(db.sources["s1"], "w", "u", Gmail);
    assert FindSource(db, "w", "u", Gmail) == Some("s1") && FindGrant(db, "w", "u", "second").None?;
    assert LiveSources(db, "w", "u", "g1") == {"s1"};
    ConnectKeepsServedExactly(db, d);
  }

  /**
   What becomes of a grant whose only source was taken: it keeps its credential, every disconnect of it is
   answered with an error, the shared one changes nothing, and the last-source one revokes it all the same.
   */
  lemma OrphanIsRevokedWithAnError(db: Db, c: Connection, x: Disconnect)
    requires Inv(db) && TakesOnlySource(db, c)
    requires x.workspace == c.workspace && x.user == c.user && x.grant == db.sources[SourceIdOf(db, c)].grant
    ensures var d := Connect(db, c);
            && x.grant in d.grants && d.grants[x.grant] == db.grants[x.grant] && d.grants[x.grant].credential.Some?
            && LiveFor(d, x) == {}
            && SharedAnswer(d, x) == Err(CardinalityChanged) && DisconnectShared(d, x) == d
            && LastAnswer(d, x) == Err(CardinalityChanged)
            && DisconnectLast(d, x).grants == d.grants[x.grant := RevokedGrant(d.grants[x.grant], x.verifiedAt)]
  {
    var s := SourceIdOf(db, c);
    assert s in LiveSources(db, c.workspace, c.user, x.grant);
    assert Bound(db, db.sources[s]) && HoldsCredential(db.grants[x.grant]);
    ConnectMovesOneSource(db, c, x.grant);
  }

  /* ---------------- refresh tokens ---------------- */

  /** Every call in flight on this grant holds this refresh token. */
  ghost predicate CallsAgree(db: Db, id: string, refresh: string) {
    forall k | k in db.sessions && db.sessions[k].grant == id :: db.sessions[k].tokens.refresh == refresh
  }

  /** The grant is revoked, or its stored refresh token is this one. */
  predicate KeepsToken(db: Db, id: string, refresh: string) {
    && id in db.grants
    && (db.grants[id].status == Revoked
        || (db.grants[id].credential.Some? && db.grants[id].credential.value.refresh == refresh))
  }

  lemma WriteKeepsToken(db: Db, call: nat, a: Answer, id: string, refresh: string)
    requires KeepsToken(db, id, refresh) && CallsAgree(db, id, refresh)
    ensures KeepsToken(WriteBack(db, call, a), id, refresh) && CallsAgree(WriteBack(db, call, a), id, refresh)
  {
  }

  lemma FailKeepsToken(db: Db, call: nat, error: string, id: string, refresh: string)
    requires KeepsToken(db, id, refresh) && CallsAgree(db, id, refresh)
    ensures KeepsToken(FailCall(db, call, error), id, refresh) && CallsAgree(FailCall(db, call, error), id, refresh)
  {
  }

  lemma BeginKeepsToken(db: Db, call: nat, w: string, u: string, g: string, id: string, refresh: string)
    requires KeepsToken(db, id, refresh) && CallsAgree(db, id, refresh)
    ensures KeepsToken(BeginCall(db, call, w, u, g), id, refresh)
            && CallsAgree(BeginCall(db, call, w, u, g), id, refresh)
  {
  }

  lemma ConnectKeepsToken(db: Db, c: Connection, id: string, refresh: string)
    requires KeepsToken(db, id, refresh) && !GrantMatch(db.grants[id], c.workspace, c.user, c.account)
    ensures KeepsToken(Connect(db, c), id, refresh) && Connect(db, c).sessions == db.sessions
  {
  }

  lemma StepKeepsToken(db: Db, s: Step, id: string, refresh: string)
    requires KeepsToken(db, id, refresh) && CallsAgree(db, id, refresh) && !Connects(s, db.grants[id])
    ensures KeepsToken(Exec(db, s), id, refresh) && CallsAgree(Exec(db, s), id, refresh)
  {
    match s
    case Tick(_) =>
    case Register(_, _) =>
    case Claim(_, _, _, _) =>
    case ConnectSource(c) => ConnectKeepsToken(db, c, id, refresh);
    case Begin(call, w, u, g) => BeginKeepsToken(db, call, w, u, g, id, refresh);
    case Write(call, a) => WriteKeepsToken(db, call, a, id, refresh);
    case Fail(call, error) => FailKeepsToken(db, call, error, id, refresh);
    case Shared(d) =>
    case Last(d) =>
  }

  /** A grant row keeps its identity. */
  lemma StepKeepsGrantKey(db: Db, s: Step, id: string)
    requires id in db.grants
    ensures id in Exec(db, s).grants && GrantKey(Exec(db, s).grants[id]) == GrantKey(db.grants[id])
  {
  }

  /**
   From a connect to the next, however token calls and disconnects interleave, a grant keeps the
   refresh token of that connect until it is revoked, given that no older call is still in flight.
   */
  lemma {:induction false} RefreshTokenIsTheConnected(db: Db, steps: seq<Step>, id: string, refresh: string)
    requires KeepsToken(db, id, refresh) && CallsAgree(db, id, refresh)
    requires forall k | 0 <= k < |steps| :: !Connects(steps[k], db.grants[id])
    ensures KeepsToken(Run(db, steps), id, refresh) && CallsAgree(Run(db, steps), id, refresh)
    decreases |steps|
  {
    if steps != [] {
      StepKeepsToken(db, steps[0], id, refresh);
      StepKeepsGrantKey(db, steps[0], id);
      forall k | 0 <= k < |steps[1..]| ensures !Connects(steps[1..][k], Exec(db, steps[0]).grants[id]) {
        assert !Connects(steps[k + 1], db.grants[id]);
      }
      RefreshTokenIsTheConnected(Exec(db, steps[0]), steps[1..], id, refresh);
    }
  }

  /** Exactly when a write-back replaces the stored refresh token: an older call meets a usable grant. */
  lemma WriteBackReplacesExactly(db: Db, call: nat, a: Answer)
    requires call in db.sessions
             && OwnedGrant(db, db.sessions[call].grant, db.sessions[call].workspace, db.sessions[call].user)
    requires Inv(db)
    ensures var s := db.sessions[call];
            var g, h := db.grants[s.grant], WriteBack(db, call, a).grants[s.grant];
            (g.credential.Some? && h.credential.Some? && h.credential.value.refresh != g.credential.value.refresh)
            <==> (g.status in {Active, RefreshRequired} && s.tokens.refresh != g.credential.value.refresh)
  {
    assert HoldsCredential(db.grants[db.sessions[call].grant]);
  }

  /** A write-back of a call that read another refresh token meets the grant in a state that takes it. */
  predicate StaleWrites(db: Db, s: Step, id: string, refresh: string) {
    && s.Write? && s.call in db.sessions && db.sessions[s.call].grant == id && Updates(db, db.sessions[s.call])
    && db.sessions[s.call].tokens.refresh != refresh
  }

  lemma WriteKeepsTokenExactly(db: Db, call: nat, a: Answer, id: string, refresh: string)
    requires KeepsToken(db, id, refresh)
    ensures KeepsToken(WriteBack(db, call, a), id, refresh) <==> !StaleWrites(db, Write(call, a), id, refresh)
  {
  }

  lemma FailKeepsTheToken(db: Db, call: nat, error: string, id: string, refresh: string)
    requires KeepsToken(db, id, refresh)
    ensures KeepsToken(FailCall(db, call, error), id, refresh)
  {
  }

  /** Between connects one kind of step takes the refresh token away. */
  lemma StepKeepsTokenExactly(db: Db, s: Step, id: string, refresh: string)
    requires KeepsToken(db, id, refresh) && !Connects(s, db.grants[id])
    ensures KeepsToken(Exec(db, s), id, refresh) <==> !StaleWrites(db, s, id, refresh)
  {
    match s
    case Tick(_) =>
    case Register(_, _) =>
    case Claim(_, _, _, _) =>
    case ConnectSource(c) => ConnectKeepsToken(db, c, id, refresh);
    case Begin(_, _, _, _) =>
    case Write(call, a) => WriteKeepsTokenExactly(db, call, a, id, refresh);
    case Fail(call, error) => FailKeepsTheToken(db, call, error, id, refresh);
    case Shared(_) =>
    case Last(_) =>
  }

  /** In every state of the run the grant is revoked or holds this refresh token. */
  ghost predicate TokenThroughout(db: Db, steps: seq<Step>, id: string, refresh: string)
    decreases |steps|
  {
    KeepsToken(db, id, refresh) && (steps == [] || TokenThroughout(Exec(db, steps[0]), steps[1..], id, refresh))
  }

  /** No write-back of the run brings another refresh token to the grant, in the state it meets. */
  ghost predicate NeverStale(db: Db, steps: seq<Step>, id: string, refresh: string)
    decreases |steps|
  {
    steps == [] || (!StaleWrites(db, steps[0], id, refresh) && NeverStale(Exec(db, steps[0]), steps[1..], id, refresh))
  }

  /**
   From a connect to the next, with any calls in flight, a grant keeps that connect's refresh token until it
   is revoked exactly while no older call's write-back meets it in a state that takes tokens.
   */
  lemma {:induction false} TokenThroughoutExactly(db: Db, steps: seq<Step>, id: string, refresh: string)
    requires KeepsToken(db, id, refresh)
    requires forall k | 0 <= k < |steps| :: !Connects(steps[k], db.grants[id])
    ensures TokenThroughout(db, steps, id, refresh) <==> NeverStale(db, steps, id, refresh)
    decreases |steps|
  {
    if steps != [] {
      StepKeepsTokenExactly(db, steps[0], id, refresh);
      if !StaleWrites(db, steps[0], id, refresh) {
        StepKeepsGrantKey(db, steps[0], id);
        forall k | 0 <= k < |steps[1..]| ensures !Connects(steps[1..][k], Exec(db, steps[0]).grants[id]) {
          assert !Connects(steps[k + 1], db.grants[id]);
        }
        TokenThroughoutExactly(Exec(db, steps[0]), steps[1..], id, refresh);
      }
    }
  }

  /**
   So the premise on older calls is needed: a call that read before a disconnect and a reconnect
   writes the old refresh token over the new one.
   */
  lemma StaleCallReplacesToken(db: Db, c: Connection, old': Tokens, a: Answer)
    requires Inv(db) && db.sessions == map[] && ConnectError(db, c).None? && c.tokens.refresh != old'.refresh
    ensures var d, g := Connect(db, c.(tokens := old')), GrantIdOf(db, c);
            var last := Disconnect(c.workspace, c.user, SourceIdOf(db, c), g, "");
            var e := WriteBack(Connect(DisconnectLast(BeginCall(d, 0, c.workspace, c.user, g), last), c), 0, a);
            g in e.grants && e.grants[g].credential.Some? && e.grants[g].credential.value.refresh == old'.refresh
  {
    var first := c.(tokens := old');
    ConnectKeepsInv(db, first);
    assert ConnectError(db, first).None? && GrantIdOf(db, first) == GrantIdOf(db, c)
           && SourceIdOf(db, first) == SourceIdOf(db, c);
    StaleSteps(Connect(db, first), c, old', a, GrantIdOf(db, c), SourceIdOf(db, c));
  }

  lemma StaleSteps(d: Db, c: Connection, old': Tokens, a: Answer, g: string, s: string)
    requires Inv(d) && c.workspace != "" && c.user != "" && c.id != "" && c.account != ""
    requires g in d.grants && d.grants[g] == ConnectedGrant(c.(tokens := old'))
    requires s in d.sources && SourceMatch(d.sources[s], c.workspace, c.user, c.provider)
    ensures var two := DisconnectLast(BeginCall(d, 0, c.workspace, c.user, g),
                                      Disconnect(c.workspace, c.user, s, g, ""));
            var e := WriteBack(Connect(two, c), 0, a);
            g in e.grants && e.grants[g].credential.Some? && e.grants[g].credential.value.refresh == old'.refresh
  {
    var one := BeginCall(d, 0, c.workspace, c.user, g);
    assert one == d.(sessions := one.sessions) && one.sessions[0] == Session(c.workspace, c.user, g, old');
    var last := Disconnect(c.workspace, c.user, s, g, "");
    OtherFieldsDoNotMatter(d, one);
    LastKeepsInv(one, last);
    StaleWrite(DisconnectLast(one, last), c, old', a, g, s);
  }

  lemma StaleWrite(two: Db, c: Connection, old': Tokens, a: Answer, g: string, s: string)
    requires Inv(two) && c.workspace != "" && c.user != "" && c.id != "" && c.account != ""
    requires 0 in two.sessions && two.sessions[0] == Session(c.workspace, c.user, g, old')
    requires g in two.grants && GrantMatch(two.grants[g], c.workspace, c.user, c.account)
    requires s in two.sources && SourceMatch(two.sources[s], c.workspace, c.user, c.provider)
    ensures var e := WriteBack(Connect(two, c), 0, a);
            g in e.grants && e.grants[g].credential.Some? && e.grants[g].credential.value.refresh == old'.refresh
  {
    ReconnectKeepsTheId(two, c, g, s);
    var three := Connect(two, c);
    assert three.grants[g] == ConnectedGrant(c) && three.sessions == two.sessions;
  }

  lemma ReconnectKeepsTheId(two: Db, c: Connection, g: string, s: string)
    requires UniqueGrants(two) && UniqueSources(two) && c.workspace != "" && c.user != "" && c.id != ""
             && c.account != ""
    requires g in two.grants && GrantMatch(two.grants[g], c.workspace, c.user, c.account)
    requires s in two.sources && SourceMatch(two.sources[s], c.workspace, c.user, c.provider)
    ensures ConnectError(two, c).None? && GrantIdOf(two, c) == g
  {
  }

  /* ---------------- nonces ---------------- */

  lemma StepKeepsConsumed(db: Db, s: Step, hash: string)
    requires hash in db.nonces && db.nonces[hash].consumed.Some?
    ensures hash in Exec(db, s).nonces && Exec(db, s).nonces[hash] == db.nonces[hash]
  {
  }

  /** A claimed nonce is never claimed again, whatever is registered or claimed in between. */
  lemma {:induction false} NonceClaimedOnce(db: Db, hash: string, steps: seq<Step>, w: string, u: string, p: Provider)
    requires hash in db.nonces && db.nonces[hash].consumed.Some?
    ensures !Claims(Run(db, steps), hash, w, u, p)
    decreases |steps|
  {
    if steps != [] {
      StepKeepsConsumed(db, steps[0], hash);
      NonceClaimedOnce(Exec(db, steps[0]), hash, steps[1..], w, u, p);
    }
  }

  /** How often this nonce is claimed, with any caller, over a run. */
  ghost function ClaimCount(db: Db, hash: string, steps: seq<Step>): nat
    decreases |steps|
  {
    if steps == [] then 0
    else
      var s := steps[0];
      (if s.Claim? && s.hash == hash && Claims(db, hash, s.workspace, s.user, s.provider) then 1 else 0)
      + ClaimCount(Exec(db, s), hash, steps[1..])
  }

  lemma {:induction false} NoClaimAfterConsumed(db: Db, hash: string, steps: seq<Step>)
    requires hash in db.nonces && db.nonces[hash].consumed.Some?
    ensures ClaimCount(db, hash, steps) == 0
    decreases |steps|
  {
    if steps != [] {
      StepKeepsConsumed(db, steps[0], hash);
      NoClaimAfterConsumed(Exec(db, steps[0]), hash, steps[1..]);
    }
  }

  lemma {:induction false} AtMostOneClaim(db: Db, hash: string, steps: seq<Step>)
    ensures ClaimCount(db, hash, steps) <= 1
    decreases |steps|
  {
    if steps != [] {
      var s := steps[0];
      if s.Claim? && s.hash == hash && Claims(db, hash, s.workspace, s.user, s.provider) {
        NoClaimAfterConsumed(Exec(db, s), hash, steps[1..]);
      } else {
        AtMostOneClaim(Exec(db, s), hash, steps[1..]);
      }
    }
  }
}
