/** The ordinary retry guard over every run, and its separation from the strict namespace. */
module GuardTheorems {
  import opened Wrappers
  import opened Text
  import opened Ledger
  import opened LedgerRuns
  import G = RetryGuard

  /* ---------------- the recorded response ---------------- */

  /**
   A completion that found its reservation open records a response that never changes or disappears and is
   what every later reserve of that key is answered, whatever other steps run.
   */
  lemma RecordedResponseIsReplayed(db: Db, workspace: string, key: string, status: int, body: string, steps: seq<Step>)
    requires Inv(db) && G.Open(db, workspace, key)
    ensures var d := Run(G.Complete(db, workspace, key, status, body), steps);
            && G.Reserve(d, workspace, key) == G.Replay(G.StatusOr200(status), body)
            && !G.Open(d, workspace, key)
  {
    var i := G.Find(db, workspace, key).value;
    var first := G.Complete(db, workspace, key, status, body);
    assert WellFormedRow(db.keys[i]);
    G.CompleteKeeps(db, workspace, key, status, body);
    RunKeepsInv(first, steps);
    CompletedIsFinal(first, steps, i);
    FindGuardUnique(Run(first, steps), i);
  }

  /* ---------------- at most one open reservation ---------------- */

  predicate Releases(s: Step, workspace: string, key: string) {
    s.GuardRelease? && Trim(s.workspace) == Trim(workspace) && Trim(s.key) == Trim(key)
  }

  ghost predicate NeverReleased(steps: seq<Step>, workspace: string, key: string) {
    forall k | 0 <= k < |steps| :: !Releases(steps[k], workspace, key)
  }

  lemma StepKeepsReservation(db: Db, s: Step, workspace: string, key: string)
    requires Inv(db) && G.Find(db, workspace, key).Some? && !Releases(s, workspace, key)
    ensures G.Find(Exec(db, s), workspace, key).Some?
  {
    var i := G.Find(db, workspace, key).value;
    assert WellFormedRow(db.keys[i]) && i < db.nextKey;
    if IsGuardStep(s) {
      GuardStepKeepsMatch(db, s, i, workspace, key);
    } else {
      StrictStepOnGuardRow(db, s, i);
    }
    RowIsFound(Exec(db, s), i, workspace, key);
  }

  lemma RowIsFound(d: Db, i: nat, workspace: string, key: string)
    requires i in d.keys && GuardMatch(d.keys[i], Trim(workspace), Trim(key))
    ensures G.Find(d, workspace, key).Some?
  {
  }

  lemma GuardStepKeepsMatch(db: Db, s: Step, i: nat, workspace: string, key: string)
    requires IsGuardStep(s) && !Releases(s, workspace, key) && i in db.keys && i < db.nextKey
    requires GuardMatch(db.keys[i], Trim(workspace), Trim(key))
    ensures i in Exec(db, s).keys && GuardMatch(Exec(db, s).keys[i], Trim(workspace), Trim(key))
  {
  }

  lemma {:induction false} ReservationStays(db: Db, steps: seq<Step>, workspace: string, key: string)
    requires Inv(db) && G.Find(db, workspace, key).Some? && NeverReleased(steps, workspace, key)
    ensures G.Find(Run(db, steps), workspace, key).Some?
    decreases |steps|
  {
    if steps != [] {
      assert !Releases(steps[0], workspace, key);
      StepKeepsReservation(db, steps[0], workspace, key);
      StepKeepsInv(db, steps[0]);
      assert NeverReleased(steps[1..], workspace, key) by {
        assert forall k | 0 <= k < |steps[1..]| :: steps[1..][k] == steps[k + 1];
      }
      ReservationStays(Exec(db, steps[0]), steps[1..], workspace, key);
    }
  }

  lemma ClaimReserves(db: Db, workspace: string, key: string, route: Route)
    requires Inv(db) && G.Claims(db, workspace, key)
    ensures var d := G.Claim(db, workspace, key, route); Inv(d) && G.Find(d, workspace, key).Some?
  {
    var d := G.Claim(db, workspace, key, route);
    G.ClaimKeeps(db, workspace, key, route);
    assert GuardMatch(d.keys[db.nextKey], Trim(workspace), Trim(key));
  }

  /** Between two inserts that both win the same key, some step releases it. */
  lemma OwnedTwiceNeedsRelease(db: Db, workspace: string, key: string, route: Route, between: seq<Step>)
    requires Inv(db) && G.Claims(db, workspace, key)
    requires G.Claims(Run(G.Claim(db, workspace, key, route), between), workspace, key)
    ensures exists k :: 0 <= k < |between| && Releases(between[k], workspace, key)
  {
    ClaimReserves(db, workspace, key, route);
    if NeverReleased(between, workspace, key) {
      ReservationStays(G.Claim(db, workspace, key, route), between, workspace, key);
    }
  }

  /** So two callers can both be told "owned": one loses its insert, the key is released, one reads and one inserts. */
  lemma TwoOwnersAcrossTheGap(db: Db, workspace: string, key: string)
    requires Inv(db) && G.Open(db, workspace, key)
    ensures !G.Claims(db, workspace, key)
    ensures var d := Run(db, [GuardRelease(workspace, key)]);
            G.Read(d, workspace, key) == G.Owned && G.Claims(d, workspace, key)
  {
    var d := G.Release(db, workspace, key);
    var steps := [GuardRelease(workspace, key)];
    assert steps[1..] == [] && Run(db, steps) == Run(d, steps[1..]);
    var i := G.Find(db, workspace, key).value;
    forall j | j in d.keys ensures !GuardMatch(d.keys[j], Trim(workspace), Trim(key)) {
      assert SlotOf(db.keys[j]) != SlotOf(db.keys[i]);
    }
  }

  /* ---------------- separate namespaces in one table ---------------- */

  predicate RowsOfModeKept(db: Db, d: Db, mode: Mode) {
    && (forall i | i in db.keys && db.keys[i].mode == mode :: i in d.keys && d.keys[i] == db.keys[i])
    && (forall i | i in d.keys && d.keys[i].mode == mode :: i in db.keys && d.keys[i] == db.keys[i])
  }

  /** A guard step leaves every strict row and every effect table alone; any other step leaves every guard row alone. */
  lemma NamespacesApart(db: Db, s: Step)
    requires Inv(db)
    ensures IsGuardStep(s) ==>
              var d := Exec(db, s);
              && RowsOfModeKept(db, d, AuthorityStrict)
              && d.(keys := db.keys, nextKey := db.nextKey) == db
    ensures !IsGuardStep(s) ==> RowsOfModeKept(db, Exec(db, s), RetryGuard)
  {
    if IsGuardStep(s) {
      GuardStepKeepsStrictRows(db, s);
    } else {
      StrictStepKeepsGuardRows(db, s);
    }
  }

  ghost predicate OnlyGuardRowsMoved(db: Db, d: Db) {
    RowsOfModeKept(db, d, AuthorityStrict) && d.(keys := db.keys, nextKey := db.nextKey) == db
  }

  lemma ClaimKeepsStrictRows(db: Db, workspace: string, key: string, route: Route)
    requires db.nextKey !in db.keys
    ensures OnlyGuardRowsMoved(db, G.Claim(db, workspace, key, route))
  {
  }

  lemma CompleteKeepsStrictRows(db: Db, workspace: string, key: string, status: int, body: string)
    ensures OnlyGuardRowsMoved(db, G.Complete(db, workspace, key, status, body))
  {
  }

  lemma ReleaseKeepsStrictRows(db: Db, workspace: string, key: string)
    ensures OnlyGuardRowsMoved(db, G.Release(db, workspace, key))
  {
  }

  lemma GuardStepKeepsStrictRows(db: Db, s: Step)
    requires db.nextKey !in db.keys && IsGuardStep(s)
    ensures OnlyGuardRowsMoved(db, Exec(db, s))
  {
    if s.GuardClaim? {
      ClaimKeepsStrictRows(db, s.workspace, s.key, s.route);
    } else if s.GuardComplete? {
      CompleteKeepsStrictRows(db, s.workspace, s.key, s.status, s.body);
    } else {
      ReleaseKeepsStrictRows(db, s.workspace, s.key);
    }
  }

  lemma StrictStepKeepsGuardRows(db: Db, s: Step)
    requires Inv(db) && !IsGuardStep(s)
    ensures RowsOfModeKept(db, Exec(db, s), RetryGuard)
  {
    forall i | i in db.keys && db.keys[i].mode == RetryGuard
      ensures i in Exec(db, s).keys && Exec(db, s).keys[i] == db.keys[i]
    {
      assert WellFormedRow(db.keys[i]) && i < db.nextKey;
      StrictStepOnGuardRow(db, s, i);
    }
    forall i | i in Exec(db, s).keys && Exec(db, s).keys[i].mode == RetryGuard
      ensures i in db.keys && db.keys[i].mode == RetryGuard
    {
      GuardRowsAreOld(db, s, i);
    }
  }

  lemma StrictStepOnGuardRow(db: Db, s: Step, i: nat)
    requires !IsGuardStep(s) && i in db.keys && db.keys[i].mode == RetryGuard
    requires i < db.nextKey && WellFormedRow(db.keys[i])
    ensures i in Exec(db, s).keys && Exec(db, s).keys[i] == db.keys[i]
  {
  }

  lemma GuardRowsAreOld(db: Db, s: Step, i: nat)
    requires !IsGuardStep(s) && i in Exec(db, s).keys && Exec(db, s).keys[i].mode == RetryGuard
    ensures i in db.keys && db.keys[i].mode == RetryGuard
  {
  }

  /** What the guard knows of a key. */
  ghost function View(db: Db, workspace: string, key: string): Option<(Option<int>, Body)> {
    var f := G.Find(db, workspace, key);
    if f.Some? then Some((db.keys[f.value].status, db.keys[f.value].body)) else None
  }

  ghost function GuardOnly(steps: seq<Step>): seq<Step> {
    if steps == [] then []
    else if IsGuardStep(steps[0]) then [steps[0]] + GuardOnly(steps[1..])
    else GuardOnly(steps[1..])
  }

  ghost predicate SameView(a: Db, b: Db) {
    forall workspace, key :: View(a, workspace, key) == View(b, workspace, key)
  }

  lemma KeptRowsKeepView(db: Db, d: Db)
    requires UniqueSlots(db.keys) && UniqueSlots(d.keys) && RowsOfModeKept(db, d, RetryGuard)
    ensures SameView(db, d)
  {
    forall workspace, key ensures View(db, workspace, key) == View(d, workspace, key) {
      var f := G.Find(db, workspace, key);
      if f.Some? {
        FindGuardUnique(d, f.value);
      } else {
        assert forall i | i in d.keys && d.keys[i].mode == RetryGuard :: d.keys[i] == db.keys[i];
      }
    }
  }

  /** A guard step moves the view of a key by that view alone. */
  function ViewAfter(v: Option<(Option<int>, Body)>, s: Step, workspace: string, key: string)
    : Option<(Option<int>, Body)>
  {
    var open := v.Some? && v.value.0.None?;
    match s
    case GuardClaim(w, k, _) =>
      if Hits(w, k, workspace, key) && v.None? then Some((None, Null)) else v
    case GuardComplete(w, k, status, body) =>
      if Hits(w, k, workspace, key) && open then Some((Some(G.StatusOr200(status)), Response(body))) else v
    case GuardRelease(w, k) =>
      if Hits(w, k, workspace, key) && open then None else v
    case _ => v
  }

  predicate Hits(w: string, k: string, workspace: string, key: string) {
    !G.Keyless(w, k) && Trim(w) == Trim(workspace) && Trim(k) == Trim(key)
  }

  lemma GuardStepOnView(db: Db, s: Step, workspace: string, key: string)
    requires Inv(db) && IsGuardStep(s)
    ensures View(Exec(db, s), workspace, key) == ViewAfter(View(db, workspace, key), s, workspace, key)
  {
    StepKeepsInv(db, s);
    var d := Exec(db, s);
    var f := G.Find(db, workspace, key);
    if f.Some? && f.value in d.keys {
      StepOnRow(db, s, f.value);
      FindGuardUnique(d, f.value);
      FindGuardUnique(db, f.value);
      ViewOfPresentRow(db, s, workspace, key);
    } else if f.Some? {
      ViewOfReleasedRow(db, s, workspace, key);
    } else {
      ViewOfAbsentRow(db, s, workspace, key);
    }
  }

  lemma ViewOfPresentRow(db: Db, s: Step, workspace: string, key: string)
    requires UniqueSlots(db.keys) && db.nextKey !in db.keys && IsGuardStep(s)
    requires var f := G.Find(db, workspace, key);
             f.Some? && f.value in Exec(db, s).keys && G.Find(Exec(db, s), workspace, key) == f
    ensures View(Exec(db, s), workspace, key) == ViewAfter(View(db, workspace, key), s, workspace, key)
  {
    var f := G.Find(db, workspace, key).value;
    FindsTheSame(db, s.workspace, s.key, workspace, key);
    if s.GuardClaim? {
      ClaimOnPresentRow(db, s.workspace, s.key, s.route, f);
    } else if s.GuardComplete? {
      CompleteOnPresentRow(db, s.workspace, s.key, s.status, s.body, f);
    } else {
      ReleaseOnPresentRow(db, s.workspace, s.key, f);
    }
  }

  lemma FindsTheSame(db: Db, w: string, k: string, workspace: string, key: string)
    requires UniqueSlots(db.keys) && G.Find(db, workspace, key).Some?
    ensures G.Find(db, w, k) == G.Find(db, workspace, key) <==> Trim(w) == Trim(workspace) && Trim(k) == Trim(key)
  {
    var f, t := G.Find(db, workspace, key), G.Find(db, w, k);
    if Trim(w) == Trim(workspace) && Trim(k) == Trim(key) {
      assert SlotOf(db.keys[t.value]) == SlotOf(db.keys[f.value]);
    }
  }

  lemma ClaimOnPresentRow(db: Db, w: string, k: string, route: Route, i: nat)
    requires i in db.keys && db.nextKey !in db.keys
    ensures var d := G.Claim(db, w, k, route); i in d.keys && d.keys[i] == db.keys[i]
  {
  }

  lemma CompleteOnPresentRow(db: Db, w: string, k: string, status: int, body: string, i: nat)
    requires i in db.keys
    ensures var d := G.Complete(db, w, k, status, body);
            && i in d.keys
            && d.keys[i] == if G.Open(db, w, k) && G.Find(db, w, k) == Some(i) then
                              db.keys[i].(status := Some(G.StatusOr200(status)), body := Response(body))
                            else db.keys[i]
  {
  }

  lemma ReleaseOnPresentRow(db: Db, w: string, k: string, i: nat)
    requires i in db.keys
    ensures var d := G.Release(db, w, k);
            && (i in d.keys <==> !(G.Open(db, w, k) && G.Find(db, w, k) == Some(i)))
            && (i in d.keys ==> d.keys[i] == db.keys[i])
  {
  }

  lemma ViewOfReleasedRow(db: Db, s: Step, workspace: string, key: string)
    requires UniqueSlots(db.keys) && IsGuardStep(s)
    requires var f := G.Find(db, workspace, key); f.Some? && f.value !in Exec(db, s).keys
    ensures View(Exec(db, s), workspace, key) == ViewAfter(View(db, workspace, key), s, workspace, key)
  {
    var f := G.Find(db, workspace, key).value;
    var d := Exec(db, s);
    assert s.GuardRelease? && d.keys == db.keys - {f};
    forall j | j in d.keys ensures !GuardMatch(d.keys[j], Trim(workspace), Trim(key)) {
      assert SlotOf(db.keys[j]) != SlotOf(db.keys[f]);
    }
  }

  lemma ViewOfAbsentRow(db: Db, s: Step, workspace: string, key: string)
    requires UniqueSlots(Exec(db, s).keys) && IsGuardStep(s) && G.Find(db, workspace, key).None?
    ensures View(Exec(db, s), workspace, key) == ViewAfter(None, s, workspace, key)
  {
    var d := Exec(db, s);
    match s
    case GuardClaim(w, k, _) =>
      if Hits(w, k, workspace, key) {
        FindGuardUnique(d, db.nextKey);
      } else {
        NoMatchMeansNoView(d, workspace, key);
      }
    case GuardComplete(_, _, _, _) => NoMatchMeansNoView(d, workspace, key);
    case GuardRelease(_, _) => NoMatchMeansNoView(d, workspace, key);
  }

  lemma NoMatchMeansNoView(d: Db, workspace: string, key: string)
    requires forall j | j in d.keys :: !GuardMatch(d.keys[j], Trim(workspace), Trim(key))
    ensures View(d, workspace, key).None?
  {
  }

  /** The strict protocols do not interfere: the guard sees the same as if only its own steps had run. */
  lemma {:induction false} GuardSeesOnlyGuardSteps(a: Db, b: Db, steps: seq<Step>)
    requires Inv(a) && Inv(b) && SameView(a, b)
    ensures SameView(Run(a, steps), Run(b, GuardOnly(steps)))
    decreases |steps|
  {
    if steps != [] {
      var s := steps[0];
      var a' := Exec(a, s);
      StepKeepsInv(a, s);
      if IsGuardStep(s) {
        var b' := Exec(b, s);
        StepKeepsInv(b, s);
        forall workspace, key ensures View(a', workspace, key) == View(b', workspace, key) {
          GuardStepOnView(a, s, workspace, key);
          GuardStepOnView(b, s, workspace, key);
        }
        GuardSeesOnlyGuardSteps(a', b', steps[1..]);
        assert GuardOnly(steps)[1..] == GuardOnly(steps[1..]);
      } else {
        NamespacesApart(a, s);
        KeptRowsKeepView(a, a');
        GuardSeesOnlyGuardSteps(a', b, steps[1..]);
      }
    }
  }

  /* ---------------- what the read of a reserve finds ---------------- */

  /** The view of a key after a run, by its guard steps alone. */
  function ViewAfterRun(v: Option<(Option<int>, Body)>, steps: seq<Step>, workspace: string, key: string)
    : Option<(Option<int>, Body)>
    decreases |steps|
  {
    if steps == [] then v
    else ViewAfter(ViewAfterRun(v, steps[..|steps| - 1], workspace, key), steps[|steps| - 1], workspace, key)
  }

  lemma {:induction false} RunOnView(db: Db, steps: seq<Step>, workspace: string, key: string)
    requires Inv(db)
    ensures View(Run(db, steps), workspace, key) == ViewAfterRun(View(db, workspace, key), steps, workspace, key)
    decreases |steps|
  {
    if steps != [] {
      var init, s := steps[..|steps| - 1], steps[|steps| - 1];
      var d := Run(db, init);
      RunOnView(db, init, workspace, key);
      RunKeepsInv(db, init);
      RunAppend(db, init, [s]);
      assert init + [s] == steps && Run(d, [s]) == Run(Exec(d, s), []);
      StepKeepsInv(d, s);
      if IsGuardStep(s) {
        GuardStepOnView(d, s, workspace, key);
      } else {
        NamespacesApart(d, s);
        KeptRowsKeepView(d, Exec(d, s));
      }
    }
  }

  /** Releases the key in the state where its view is `v`. */
  predicate Frees(v: Option<(Option<int>, Body)>, s: Step, workspace: string, key: string) {
    s.GuardRelease? && Hits(s.workspace, s.key, workspace, key) && v.Some? && v.value.0.None?
  }

  predicate ClaimsAnew(s: Step, workspace: string, key: string) {
    s.GuardClaim? && Hits(s.workspace, s.key, workspace, key)
  }

  /** Step `k` frees the key and no later step claims it. */
  predicate FreedForGood(v: Option<(Option<int>, Body)>, steps: seq<Step>, k: nat, workspace: string, key: string)
    requires k < |steps|
  {
    && Frees(ViewAfterRun(v, steps[..k], workspace, key), steps[k], workspace, key)
    && forall j | k < j < |steps| :: !ClaimsAnew(steps[j], workspace, key)
  }

  lemma {:induction false} GoneExactly(v: Option<(Option<int>, Body)>, steps: seq<Step>, workspace: string, key: string)
    requires v.Some?
    ensures ViewAfterRun(v, steps, workspace, key).None?
            <==> exists k | 0 <= k < |steps| :: FreedForGood(v, steps, k, workspace, key)
    decreases |steps|
  {
    if steps != [] {
      var init, last := steps[..|steps| - 1], |steps| - 1;
      GoneExactly(v, init, workspace, key);
      forall k | 0 <= k < last
        ensures FreedForGood(v, steps, k, workspace, key)
                <==> FreedForGood(v, init, k, workspace, key) && !ClaimsAnew(steps[last], workspace, key)
      {
        FreedBeforeLast(v, steps, k, workspace, key);
      }
      GoneByLast(v, steps, workspace, key);
    }
  }

  lemma FreedBeforeLast(v: Option<(Option<int>, Body)>, steps: seq<Step>, k: nat, workspace: string, key: string)
    requires k < |steps| - 1
    ensures FreedForGood(v, steps, k, workspace, key)
            <==> FreedForGood(v, steps[..|steps| - 1], k, workspace, key)
                 && !ClaimsAnew(steps[|steps| - 1], workspace, key)
  {
    var init := steps[..|steps| - 1];
    assert init[..k] == steps[..k];
    assert forall j | k < j < |init| :: init[j] == steps[j];
  }

  lemma FreedLast(v: Option<(Option<int>, Body)>, steps: seq<Step>, workspace: string, key: string)
    requires steps != []
    ensures var init, last := steps[..|steps| - 1], |steps| - 1;
            FreedForGood(v, steps, last, workspace, key)
            <==> Frees(ViewAfterRun(v, init, workspace, key), steps[last], workspace, key)
  {
  }

  lemma GoneByLast(v: Option<(Option<int>, Body)>, steps: seq<Step>, workspace: string, key: string)
    requires v.Some? && steps != []
    requires var init := steps[..|steps| - 1];
             && (ViewAfterRun(v, init, workspace, key).None?
                 <==> exists k | 0 <= k < |init| :: FreedForGood(v, init, k, workspace, key))
             && forall k | 0 <= k < |init| ::
                  FreedForGood(v, steps, k, workspace, key)
                  <==> FreedForGood(v, init, k, workspace, key) && !ClaimsAnew(steps[|steps| - 1], workspace, key)
    ensures ViewAfterRun(v, steps, workspace, key).None?
            <==> exists k | 0 <= k < |steps| :: FreedForGood(v, steps, k, workspace, key)
  {
    var init, last := steps[..|steps| - 1], |steps| - 1;
    FreedLast(v, steps, workspace, key);
    if k :| 0 <= k < |init| && FreedForGood(v, init, k, workspace, key) {
      assert !ClaimsAnew(steps[last], workspace, key) ==> FreedForGood(v, steps, k, workspace, key);
    }
  }

  /**
   A reserve that lost its insert, with any steps before its read, is told "owned" exactly when one of
   them freed the key and no later one claimed it again; otherwise it is told of the reservation it finds.
   */
  lemma OwnedByReadExactly(db: Db, workspace: string, key: string, between: seq<Step>)
    requires Inv(db) && G.Find(db, workspace, key).Some?
    ensures G.Read(Run(db, between), workspace, key) == G.Owned <==>
            exists k | 0 <= k < |between| :: FreedForGood(View(db, workspace, key), between, k, workspace, key)
  {
    RunOnView(db, between, workspace, key);
    GoneExactly(View(db, workspace, key), between, workspace, key);
  }
}
