/** What a guard call answers and writes, in terms of rows and columns alone. */
module GuardEffects {
  import opened Wrappers
  import opened Text
  import opened Ledger
  import opened LedgerRuns
  import opened GuardTheorems
  import G = RetryGuard
  import L = LedgerDatabase

  /** A row of the guard's own namespace, under the trimmed workspace and key. */
  predicate Reserved(db: Db, i: nat, workspace: string, key: string) {
    && i in db.keys && db.keys[i].mode == Mode.RetryGuard
    && db.keys[i].workspace == Trim(workspace) && db.keys[i].key == Trim(key)
  }

  ghost predicate KeyHeld(db: Db, workspace: string, key: string) { exists i :: Reserved(db, i, workspace, key) }

  predicate Named(workspace: string, key: string) { Trim(workspace) != "" && Trim(key) != "" }

  lemma HeldIsFound(db: Db, workspace: string, key: string)
    requires UniqueSlots(db.keys)
    ensures G.Find(db, workspace, key).Some? <==> KeyHeld(db, workspace, key)
    ensures forall i: nat | Reserved(db, i, workspace, key) :: G.Find(db, workspace, key) == Some(i)
  {
    forall i: nat | Reserved(db, i, workspace, key) ensures G.Find(db, workspace, key) == Some(i) {
      assert GuardMatch(db.keys[i], Trim(workspace), Trim(key));
      FindGuardUnique(db, i);
    }
    if G.Find(db, workspace, key).Some? {
      assert Reserved(db, G.Find(db, workspace, key).value, workspace, key);
    }
  }

  /** What the read finds: nothing, an open reservation, or a recorded response. */
  ghost predicate ReadsAs(d: Db, workspace: string, key: string, r: G.Reservation) {
    && (r == G.Owned <==> !KeyHeld(d, workspace, key))
    && (forall i: nat | Reserved(d, i, workspace, key) ::
          if d.keys[i].status.None? then r == G.InProgress else RecordedAnswer(d.keys[i], r))
  }

  lemma ReadExactly(d: Db, workspace: string, key: string)
    requires Inv(d)
    ensures ReadsAs(d, workspace, key, G.Read(d, workspace, key))
  {
    HeldIsFound(d, workspace, key);
  }

  lemma ClaimExactly(db: Db, workspace: string, key: string, route: Route)
    requires Inv(db)
    ensures G.Claims(db, workspace, key) <==> Named(workspace, key) && !KeyHeld(db, workspace, key)
    ensures G.Claims(db, workspace, key) ==> OpenRowAdded(db, G.Claim(db, workspace, key, route), workspace, key, route)
  {
    HeldIsFound(db, workspace, key);
  }

  /**
   A reserve call: a blank name is owned without a row; a free key is owned and gets one open row; a taken
   key is in progress while its row is open and answers the recorded response once it has one.
   */
  lemma ReserveAnswersExactly(db: Db, workspace: string, key: string, route: Route, gap: seq<Step>)
    requires Inv(db)
    ensures var (d, r) := L.GuardReserved(db, workspace, key, route, gap);
            && (!Named(workspace, key) ==> d == db && r == G.Owned)
            && (Named(workspace, key) && !KeyHeld(db, workspace, key) ==>
                  r == G.Owned && OpenRowAdded(db, d, workspace, key, route))
            && (Named(workspace, key) && KeyHeld(db, workspace, key) ==>
                  d == Run(db, gap) && ReadsAs(d, workspace, key, r))
  {
    ClaimExactly(db, workspace, key, route);
    RunKeepsInv(db, gap);
    ReadExactly(Run(db, gap), workspace, key);
  }

  predicate OpenRowAdded(db: Db, d: Db, workspace: string, key: string, route: Route) {
    && db.nextKey !in db.keys && Reserved(d, db.nextKey, workspace, key)
    && d.keys[db.nextKey].status.None? && d.keys[db.nextKey].body.Null?
    && d.keys[db.nextKey].route == (if route.OtherRoute? then OtherRoute(Trim(route.path)) else route)
    && d.keys[db.nextKey].actor.None? && d.keys[db.nextKey].digest.None?
    && d == db.(keys := db.keys[db.nextKey := d.keys[db.nextKey]], nextKey := db.nextKey + 1)
  }

  /** The recorded status, where zero reads as 200, and body. */
  predicate RecordedAnswer(row: KeyRow, r: G.Reservation) {
    && row.status.Some? && r.Replay? && r.status == (if row.status.value == 0 then 200 else row.status.value)
    && (row.body.Response? ==> r.body == row.body.json) && (!row.body.Response? ==> r.body == "null")
  }

  /** A completion writes status and body on the key's open row, if there is one, and nothing else. */
  lemma CompletionExactly(db: Db, workspace: string, key: string, status: int, body: string)
    requires Inv(db)
    ensures var d := G.Complete(db, workspace, key, status, body);
            && (forall i: nat | Named(workspace, key) && Reserved(db, i, workspace, key) && db.keys[i].status.None? ::
                  && i in d.keys && d.keys[i].status == Some(if status == 0 then 200 else status)
                  && d.keys[i].body == Response(body)
                  && d == db.(keys := db.keys[i := db.keys[i].(status := d.keys[i].status, body := d.keys[i].body)]))
            && ((forall i: nat | Named(workspace, key) && Reserved(db, i, workspace, key) :: db.keys[i].status.Some?)
                ==> d == db)
  {
    HeldIsFound(db, workspace, key);
  }

  /** A release deletes the key's open row, if there is one, and nothing else. */
  lemma ReleaseExactly(db: Db, workspace: string, key: string)
    requires Inv(db)
    ensures var d := G.Release(db, workspace, key);
            && (forall i: nat | Named(workspace, key) && Reserved(db, i, workspace, key) && db.keys[i].status.None? ::
                  d == db.(keys := db.keys - {i}))
            && ((forall i: nat | Named(workspace, key) && Reserved(db, i, workspace, key) :: db.keys[i].status.Some?)
                ==> d == db)
  {
    HeldIsFound(db, workspace, key);
  }

  /** A step of a run does what the call made of it does when nobody else is there. */
  lemma GuardStepsAreCalls(db: Db, workspace: string, key: string, route: Route, status: int, body: string)
    requires Inv(db)
    ensures Run(db, [GuardClaim(workspace, key, route)]) == L.GuardReserved(db, workspace, key, route, []).0
    ensures Run(db, [GuardComplete(workspace, key, status, body)]) == G.Complete(db, workspace, key, status, body)
    ensures Run(db, [GuardRelease(workspace, key)]) == G.Release(db, workspace, key)
  {
    OneStep(db, GuardClaim(workspace, key, route));
    OneStep(db, GuardComplete(workspace, key, status, body));
    OneStep(db, GuardRelease(workspace, key));
  }

  lemma OneStep(db: Db, s: Step)
    ensures Run(db, [s]) == Exec(db, s)
  {
    assert [s][1..] == [] && Run(db, [s]) == Run(Exec(db, s), []);
  }
}
