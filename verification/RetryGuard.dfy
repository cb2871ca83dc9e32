/** The ordinary retry guard of idempotency-store.ts, in its own namespace of the key table. */
module RetryGuard {
  import opened Wrappers
  import opened Text
  import opened Ledger

  datatype Reservation = Owned | InProgress | Replay(status: int, body: string)

  /** Calls with a blank workspace or key never reach the table. */
  predicate Keyless(workspace: string, key: string) {
    Trim(workspace) == "" || Trim(key) == ""
  }

  ghost function Find(db: Db, workspace: string, key: string): Option<nat> {
    FindGuard(db, Trim(workspace), Trim(key))
  }

  function CleanRoute(route: Route): Route {
    if route.OtherRoute? then OtherRoute(Trim(route.path)) else route
  }

  /** `INSERT ... ON CONFLICT DO NOTHING`: true when this call now owns the key. */
  ghost predicate Claims(db: Db, workspace: string, key: string) {
    !Keyless(workspace, key) && Find(db, workspace, key).None?
  }

  ghost function Claim(db: Db, workspace: string, key: string, route: Route): Db {
    if Claims(db, workspace, key) then
      db.(keys := db.keys[db.nextKey :=
            KeyRow(Trim(workspace), Trim(key), CleanRoute(route), None, None, Mode.RetryGuard, None, Null)],
          nextKey := db.nextKey + 1)
    else db
  }

  /** JavaScript's `Number(status) || 200`. */
  function StatusOr200(status: int): int { if status == 0 then 200 else status }

  /** The read that follows an insert that was not ours. */
  ghost function Read(db: Db, workspace: string, key: string): Reservation {
    match Find(db, workspace, key)
    case None => Owned
    case Some(id) =>
      var row := db.keys[id];
      if row.status.None? then InProgress
      else Replay(StatusOr200(row.status.value), if row.body.Response? then row.body.json else "null")
  }

  /** Reserve with nothing between its two statements. */
  ghost function Reserve(db: Db, workspace: string, key: string): Reservation {
    if Keyless(workspace, key) || Claims(db, workspace, key) then Owned else Read(db, workspace, key)
  }

  ghost predicate Open(db: Db, workspace: string, key: string) {
    !Keyless(workspace, key) && Find(db, workspace, key).Some?
    && db.keys[Find(db, workspace, key).value].status.None?
  }

  ghost function Complete(db: Db, workspace: string, key: string, status: int, body: string): Db {
    if Open(db, workspace, key) then
      var id := Find(db, workspace, key).value;
      db.(keys := db.keys[id := db.keys[id].(status := Some(StatusOr200(status)), body := Response(body))])
    else db
  }

  ghost function Release(db: Db, workspace: string, key: string): Db {
    if Open(db, workspace, key) then db.(keys := db.keys - {Find(db, workspace, key).value}) else db
  }

  lemma ClaimKeeps(db: Db, workspace: string, key: string, route: Route)
    requires Inv(db)
    ensures Inv(Claim(db, workspace, key, route))
  {
    if Claims(db, workspace, key) {
      var row := Claim(db, workspace, key, route).keys[db.nextKey];
      forall i | i in db.keys ensures SlotOf(db.keys[i]) != SlotOf(row) {
        assert !GuardMatch(db.keys[i], Trim(workspace), Trim(key));
      }
      InsertKeepsInv(db, row);
    }
  }

  lemma CompleteKeeps(db: Db, workspace: string, key: string, status: int, body: string)
    requires Inv(db)
    ensures Inv(Complete(db, workspace, key, status, body))
  {
    if Open(db, workspace, key) {
      var id := Find(db, workspace, key).value;
      assert WellFormedRow(db.keys[id]);
      RewriteKeepsInv(db, id, Complete(db, workspace, key, status, body).keys[id]);
    }
  }

  lemma ReleaseKeeps(db: Db, workspace: string, key: string)
    requires Inv(db)
    ensures Inv(Release(db, workspace, key))
  {
    if Open(db, workspace, key) {
      var id := Find(db, workspace, key).value;
      assert WellFormedRow(db.keys[id]);
      DeleteKeepsInv(db, id);
    }
  }

  lemma ClaimOnRow(db: Db, workspace: string, key: string, route: Route, i: nat)
    requires i in db.keys && i < db.nextKey && WellFormedRow(db.keys[i])
    ensures KeepsRow(db, Claim(db, workspace, key, route), i)
  {
  }

  lemma CompleteOnRow(db: Db, workspace: string, key: string, status: int, body: string, i: nat)
    requires i in db.keys && i < db.nextKey && WellFormedRow(db.keys[i])
    ensures KeepsRow(db, Complete(db, workspace, key, status, body), i)
  {
  }

  lemma ReleaseOnRow(db: Db, workspace: string, key: string, i: nat)
    requires i in db.keys && i < db.nextKey && WellFormedRow(db.keys[i])
    ensures KeepsRow(db, Release(db, workspace, key), i)
  {
  }
}
