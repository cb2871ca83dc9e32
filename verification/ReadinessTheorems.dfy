/** What holds of readiness saves over every run. */
module ReadinessTheorems {
  import opened Wrappers
  import opened Text
  import opened ReadinessStore

  /* ---------------- the invariant ---------------- */

  lemma SaveKeepsRowsUnique(db: Db, s: Save, p: Picks)
    requires Inv(db) && Legal(db, s, p) && Writes(db, s, p)
    ensures var d, r := SaveAnswers(db, s, p), TargetRow(db, s, p);
            && OneRowPerRequest(d) && (forall i | i in d.rows :: d.rows[i].request in d.requests)
            && d.rows.Keys == db.rows.Keys + {r}
            && (p.row.Some? ==> r == p.row.value)
  {
    var d, r, q := SaveAnswers(db, s, p), TargetRow(db, s, p), TargetRequest(db, s, p);
    forall i | i in db.rows && i != r ensures db.rows[i].request != q {
      assert FindRow(db, q).Some? ==> db.rows[r].request == q;
    }
    assert q in d.requests;
  }

  lemma SaveKeepsInv(db: Db, s: Save, p: Picks)
    requires Inv(db) && Legal(db, s, p)
    ensures Inv(SaveAnswers(db, s, p))
  {
    if Writes(db, s, p) {
      SaveKeepsRowsUnique(db, s, p);
      SaveKeepsReceiptsUnique(db, s, p);
    }
  }

  lemma SaveKeepsReceiptsUnique(db: Db, s: Save, p: Picks)
    requires OneReceiptPerKey(db) && Legal(db, s, p) && Writes(db, s, p)
    ensures OneReceiptPerKey(SaveAnswers(db, s, p))
  {
    var d := SaveAnswers(db, s, p);
    assert forall i | i in db.receipts :: !ReceiptMatch(db.receipts[i], s);
    assert ReceiptMatch(d.receipts[db.nextReceipt], s);
  }

  lemma RegisterKeepsInv(db: Db, g: Registration)
    requires Inv(db)
    ensures Inv(Register(db, g))
  {
  }

  lemma RowsKeepTheirRequests(db: Db, d: Db)
    requires Inv(db) && d.requests.Keys == db.requests.Keys && d.rows.Keys == db.rows.Keys
    requires d.receipts == db.receipts && d.nextReceipt == db.nextReceipt
    requires forall i | i in db.rows :: d.rows[i].request == db.rows[i].request
    ensures Inv(d)
  {
  }

  lemma StepKeepsInv(db: Db, t: Step)
    requires Inv(db) && StepLegal(db, t)
    ensures Inv(Exec(db, t))
  {
    match t
    case Saves(s, p) => SaveKeepsInv(db, s, p);
    case Registers(g) => RegisterKeepsInv(db, g);
    case AttachesAll(a) => RowsKeepTheirRequests(db, Attach(db, a));
    case Provisions(v) => RowsKeepTheirRequests(db, Provision(db, v));
  }

  /** Over every run there is at most one audit receipt per workspace, user and client request. */
  lemma {:induction false} RunKeepsInv(db: Db, steps: seq<Step>)
    requires Inv(db) && RunLegal(db, steps)
    ensures Inv(Run(db, steps))
    decreases |steps|
  {
    if steps != [] {
      StepKeepsInv(db, steps[0]);
      RunKeepsInv(Exec(db, steps[0]), steps[1..]);
    }
  }

  /** Two receipts of one workspace, user and client request are one, in every state that saves can reach. */
  lemma OneReceiptPerClientRequest(requests: map<string, Request>, steps: seq<Step>, i: nat, j: nat)
    requires RunLegal(Db(requests, map[], map[], 0), steps)
    requires var d := Run(Db(requests, map[], map[], 0), steps);
             i in d.receipts && j in d.receipts && KeyOf(d.receipts[i]) == KeyOf(d.receipts[j])
    ensures i == j
    ensures var d := Run(Db(requests, map[], map[], 0), steps); d.receipts[i].row in d.rows
  {
    RunKeepsInv(Db(requests, map[], map[], 0), steps);
  }

  /* ---------------- one row per workspace ---------------- */

  ghost predicate AtMostOneRow(db: Db, workspace: string) {
    forall i, j | i in db.rows && j in db.rows && BelongsTo(db.rows[i], workspace)
      && BelongsTo(db.rows[j], workspace) :: i == j
  }

  lemma SaveKeepsOneRow(db: Db, s: Save, p: Picks, workspace: string)
    requires Inv(db) && Legal(db, s, p) && AtMostOneRow(db, workspace)
    ensures AtMostOneRow(SaveAnswers(db, s, p), workspace)
  {
    if Writes(db, s, p) {
      SaveKeepsRowsUnique(db, s, p);
    }
  }

  /** Saves and registrations never give a workspace that has at most one readiness row a second one. */
  lemma {:induction false} RunKeepsOneRow(db: Db, steps: seq<Step>, workspace: string)
    requires Inv(db) && RunLegal(db, steps) && AtMostOneRow(db, workspace)
    requires forall k | 0 <= k < |steps| :: steps[k].Saves? || steps[k].Registers?
    ensures AtMostOneRow(Run(db, steps), workspace)
    decreases |steps|
  {
    if steps != [] {
      StepKeepsInv(db, steps[0]);
      if steps[0].Saves? {
        SaveKeepsOneRow(db, steps[0].save, steps[0].picks, workspace);
      }
      RunKeepsOneRow(Exec(db, steps[0]), steps[1..], workspace);
    }
  }

  /* ---------------- repeats ---------------- */

  /** A row's workspace and the workspace its request invites to do not disagree. */
  predicate RowAligned(db: Db, i: string)
    requires i in db.rows
  {
    var r := db.rows[i];
    r.workspace.Some? && r.request in db.requests ==> db.requests[r.request].invited in {None, r.workspace}
  }

  ghost predicate Aligned(db: Db) {
    forall i | i in db.rows :: RowAligned(db, i)
  }

  /** The step re-points this request to another workspace than `w`. */
  predicate TakesAway(t: Step, request: string, w: string) {
    t.Provisions? && request != "" && t.provisioning.request == request && t.provisioning.workspace != w
  }

  lemma SaveKeepsPlace(db: Db, s: Save, p: Picks, i: string, w: string)
    requires Inv(db) && Legal(db, s, p) && Aligned(db) && i in db.rows && BelongsTo(db.rows[i], w)
    ensures var d := SaveAnswers(db, s, p);
            i in d.rows && BelongsTo(d.rows[i], w) && d.rows[i].request == db.rows[i].request
  {
    if Writes(db, s, p) {
      SaveKeepsRowsUnique(db, s, p);
      if i == TargetRow(db, s, p) {
        assert RowAligned(db, i);
      }
    }
  }

  lemma SaveKeepsAligned(db: Db, s: Save, p: Picks)
    requires Inv(db) && Legal(db, s, p) && Aligned(db)
    ensures Aligned(SaveAnswers(db, s, p))
  {
    if Writes(db, s, p) {
      var d, r := SaveAnswers(db, s, p), TargetRow(db, s, p);
      SaveKeepsRowsUnique(db, s, p);
      if r in db.rows {
        assert RowAligned(db, r);
      }
      forall i | i in d.rows ensures RowAligned(d, i) {
        if i != r {
          assert RowAligned(db, i);
        }
      }
    }
  }

  lemma RegisterKeepsAligned(db: Db, g: Registration)
    requires Inv(db) && Aligned(db)
    ensures Aligned(Register(db, g))
  {
    var d := Register(db, g);
    forall i | i in d.rows ensures RowAligned(d, i) {
      if i in db.rows {
        assert RowAligned(db, i);
      }
    }
  }

  /** A provisioning run leaves rows and invitations in agreement: it sets both. */
  lemma ProvisionKeepsAligned(db: Db, v: Provisioning)
    requires Inv(db) && Aligned(db)
    ensures Aligned(Provision(db, v))
  {
    var d := Provision(db, v);
    forall i | i in d.rows ensures RowAligned(d, i) {
      assert RowAligned(db, i);
    }
  }

  /** Attaching keeps rows and invitations in agreement exactly when every stamped row's request allows it. */
  lemma AttachKeepsAlignedExactly(db: Db, a: Attachment)
    requires Inv(db) && Aligned(db)
    ensures Aligned(Attach(db, a)) <==>
            forall i | i in db.rows && Attaches(db.rows[i], a) ::
              db.requests[db.rows[i].request].invited in {None, Some(a.workspace)}
  {
    var d := Attach(db, a);
    assert d.rows.Keys == db.rows.Keys;
    forall i | i in db.rows
      ensures RowAligned(d, i)
              <==> (Attaches(db.rows[i], a) ==> db.requests[db.rows[i].request].invited in {None, Some(a.workspace)})
    {
      assert RowAligned(db, i);
    }
  }

  /** In an aligned state the only step that takes a row from its workspace re-points the row's own request. */
  lemma AlignedRowLeavesExactly(db: Db, t: Step, i: string, w: string)
    requires Inv(db) && Aligned(db) && StepLegal(db, t) && i in db.rows && BelongsTo(db.rows[i], w)
    ensures i in Exec(db, t).rows && Exec(db, t).rows[i].request == db.rows[i].request
    ensures !BelongsTo(Exec(db, t).rows[i], w) <==> TakesAway(t, db.rows[i].request, w)
  {
    match t
    case Saves(s, p) => SaveKeepsPlace(db, s, p, i, w);
    case Registers(_) =>
    case AttachesAll(_) =>
    case Provisions(_) =>
  }

  /** The step writes a save of another workspace onto this row, or re-points its request. */
  ghost predicate Moves(db: Db, t: Step, i: string, w: string)
    requires i in db.rows && StepLegal(db, t)
  {
    || TakesAway(t, db.rows[i].request, w)
    || (t.Saves? && t.save.workspace != w && Writes(db, t.save, t.picks) && TargetRow(db, t.save, t.picks) == i)
  }

  /** In every state those are the only two ways a row leaves its workspace. */
  lemma RowLeavesItsWorkspaceExactly(db: Db, t: Step, i: string, w: string)
    requires Inv(db) && StepLegal(db, t) && i in db.rows && BelongsTo(db.rows[i], w)
    ensures i in Exec(db, t).rows
    ensures BelongsTo(Exec(db, t).rows[i], w) <==> !Moves(db, t, i, w)
  {
    match t
    case Saves(s, p) => if Writes(db, s, p) { SaveKeepsRowsUnique(db, s, p); }
    case Registers(_) =>
    case AttachesAll(_) =>
    case Provisions(_) =>
  }

  /** The row is the workspace's own in every state of the run. */
  ghost predicate StaysThroughout(db: Db, steps: seq<Step>, i: string, w: string)
    requires RunLegal(db, steps)
    decreases |steps|
  {
    && i in db.rows && BelongsTo(db.rows[i], w)
    && (steps == [] || StaysThroughout(Exec(db, steps[0]), steps[1..], i, w))
  }

  /** No step of the run moves the row, in the state it meets. */
  ghost predicate NeverMoved(db: Db, steps: seq<Step>, i: string, w: string)
    requires RunLegal(db, steps)
    decreases |steps|
  {
    steps == [] || (i in db.rows && !Moves(db, steps[0], i, w) && NeverMoved(Exec(db, steps[0]), steps[1..], i, w))
  }

  lemma {:induction false} StaysThroughoutExactly(db: Db, steps: seq<Step>, i: string, w: string)
    requires Inv(db) && RunLegal(db, steps) && i in db.rows && BelongsTo(db.rows[i], w)
    ensures StaysThroughout(db, steps, i, w) <==> NeverMoved(db, steps, i, w)
    ensures NeverMoved(db, steps, i, w) ==> i in Run(db, steps).rows && BelongsTo(Run(db, steps).rows[i], w)
    decreases |steps|
  {
    if steps != [] {
      StepKeepsInv(db, steps[0]);
      RowLeavesItsWorkspaceExactly(db, steps[0], i, w);
      if !Moves(db, steps[0], i, w) {
        StaysThroughoutExactly(Exec(db, steps[0]), steps[1..], i, w);
      }
    }
  }

  /** The attachments of a run stamp only rows whose requests allow it, in the states they meet. */
  ghost predicate AlignedRun(db: Db, steps: seq<Step>)
    requires RunLegal(db, steps)
    decreases |steps|
  {
    steps == []
    || (&& (steps[0].AttachesAll? ==> Aligned(Attach(db, steps[0].attachment)))
        && AlignedRun(Exec(db, steps[0]), steps[1..]))
  }

  lemma StepKeepsAligned(db: Db, t: Step)
    requires Inv(db) && Aligned(db) && StepLegal(db, t) && (t.AttachesAll? ==> Aligned(Attach(db, t.attachment)))
    ensures Aligned(Exec(db, t))
  {
    match t
    case Saves(s, p) => SaveKeepsAligned(db, s, p);
    case Registers(g) => RegisterKeepsAligned(db, g);
    case AttachesAll(_) =>
    case Provisions(v) => ProvisionKeepsAligned(db, v);
  }

  lemma {:induction false} RunKeepsPlace(db: Db, steps: seq<Step>, i: string, w: string)
    requires Inv(db) && Aligned(db) && RunLegal(db, steps) && AlignedRun(db, steps)
    requires i in db.rows && BelongsTo(db.rows[i], w)
    requires forall k | 0 <= k < |steps| :: !TakesAway(steps[k], db.rows[i].request, w)
    ensures i in Run(db, steps).rows && BelongsTo(Run(db, steps).rows[i], w)
    decreases |steps|
  {
    if steps != [] {
      StepKeepsInv(db, steps[0]);
      StepKeepsAligned(db, steps[0]);
      AlignedRowLeavesExactly(db, steps[0], i, w);
      RunKeepsPlace(Exec(db, steps[0]), steps[1..], i, w);
    }
  }

  /** No writer alters or removes a receipt. */
  ghost predicate KeepsReceipts(a: Db, b: Db) {
    forall i | i in a.receipts :: i in b.receipts && b.receipts[i] == a.receipts[i]
  }

  lemma StepKeepsReceipts(db: Db, t: Step)
    requires Inv(db) && StepLegal(db, t)
    ensures KeepsReceipts(db, Exec(db, t))
  {
  }

  lemma {:induction false} RunKeepsReceipts(db: Db, steps: seq<Step>)
    requires Inv(db) && RunLegal(db, steps)
    ensures KeepsReceipts(db, Run(db, steps))
    decreases |steps|
  {
    if steps != [] {
      StepKeepsInv(db, steps[0]);
      StepKeepsReceipts(db, steps[0]);
      RunKeepsReceipts(Exec(db, steps[0]), steps[1..]);
    }
  }

  predicate SameKey(s: Save, t: Save) {
    (s.workspace, s.user, s.client) == (t.workspace, t.user, t.client)
  }

  lemma StoredReceiptIsFound(db: Db, s: Save, id: nat)
    requires OneReceiptPerKey(db) && id in db.receipts && ReceiptMatch(db.receipts[id], s)
    ensures FindReceipt(db, s) == Some(id)
  {
    assert KeyOf(db.receipts[FindReceipt(db, s).value]) == KeyOf(db.receipts[id]);
  }

  /**
   What a repeat of an answered save gets after any run of any writers: nothing is written, and it gets the
   first revision or, with other answers, a conflict, exactly while the row is the workspace's own.
   */
  lemma RepeatExactly(db: Db, s: Save, p: Picks, steps: seq<Step>, t: Save, q: Picks)
    requires Inv(db) && Legal(db, s, p) && Answer(db, s, p).Ok? && SameKey(s, t) && !Invalid(t)
    requires RunLegal(SaveAnswers(db, s, p), steps) && Legal(Run(SaveAnswers(db, s, p), steps), t, q)
    ensures var e, first := Run(SaveAnswers(db, s, p), steps), Answer(db, s, p).value;
            && SaveAnswers(e, t, q) == e && first.row in e.rows
            && Answer(e, t, q) == if !BelongsTo(e.rows[first.row], s.workspace) then Err(Internal)
                                  else if t.digest != s.digest then Err(Conflict)
                                  else Ok(first.(replayed := true))
  {
    var d, first := SaveAnswers(db, s, p), Answer(db, s, p).value;
    SaveKeepsInv(db, s, p);
    RunKeepsInv(d, steps);
    RunKeepsReceipts(d, steps);
    ReceiptOfTheSave(db, s, p);
    RepeatFindsTheReceipt(s, first, Run(d, steps), t, q);
  }

  lemma ReceiptOfTheSave(db: Db, s: Save, p: Picks)
    requires Inv(db) && Legal(db, s, p) && Answer(db, s, p).Ok?
    ensures var d, first := SaveAnswers(db, s, p), Answer(db, s, p).value;
            && first.receipt in d.receipts
            && d.receipts[first.receipt] == Receipt(s.workspace, s.user, s.client, s.digest, first.row)
            && first.digest == s.digest && first.row in d.rows && BelongsTo(d.rows[first.row], s.workspace)
  {
  }

  lemma RepeatFindsTheReceipt(s: Save, first: Revision, e: Db, t: Save, q: Picks)
    requires Inv(e) && Legal(e, t, q) && SameKey(s, t) && !Invalid(t) && first.digest == s.digest
    requires first.receipt in e.receipts
             && e.receipts[first.receipt] == Receipt(s.workspace, s.user, s.client, s.digest, first.row)
    ensures SaveAnswers(e, t, q) == e && first.row in e.rows
    ensures Answer(e, t, q) == if !BelongsTo(e.rows[first.row], s.workspace) then Err(Internal)
                               else if t.digest != s.digest then Err(Conflict)
                               else Ok(first.(replayed := true))
  {
    StoredReceiptIsFound(e, t, first.receipt);
  }

  /** A save answered at first is answered alike in every state of a run. */
  ghost predicate RepeatsThroughout(d: Db, steps: seq<Step>, s: Save, first: Revision)
    requires RunLegal(d, steps)
    decreases |steps|
  {
    && (forall q | Legal(d, s, q) :: SaveAnswers(d, s, q) == d && Answer(d, s, q) == Ok(first.(replayed := true)))
    && (steps == [] || RepeatsThroughout(Exec(d, steps[0]), steps[1..], s, first))
  }

  /**
   A repeat is answered with the first revision in every state of a run, of any writers, exactly while no
   step of it moves the row: a provisioning run of its request or a save of another workspace.
   */
  lemma RepeatsThroughoutExactly(db: Db, s: Save, p: Picks, steps: seq<Step>)
    requires Inv(db) && Legal(db, s, p) && Answer(db, s, p).Ok?
    requires RunLegal(SaveAnswers(db, s, p), steps)
    ensures RepeatsThroughout(SaveAnswers(db, s, p), steps, s, Answer(db, s, p).value)
            <==> NeverMoved(SaveAnswers(db, s, p), steps, Answer(db, s, p).value.row, s.workspace)
  {
    SaveKeepsInv(db, s, p);
    ReceiptOfTheSave(db, s, p);
    RepeatsWhileTheRowStays(SaveAnswers(db, s, p), steps, s, Answer(db, s, p).value);
    StaysThroughoutExactly(SaveAnswers(db, s, p), steps, Answer(db, s, p).value.row, s.workspace);
  }

  lemma {:induction false} RepeatsWhileTheRowStays(d: Db, steps: seq<Step>, s: Save, first: Revision)
    requires Inv(d) && RunLegal(d, steps) && !Invalid(s) && first.digest == s.digest
    requires first.receipt in d.receipts
             && d.receipts[first.receipt] == Receipt(s.workspace, s.user, s.client, s.digest, first.row)
    ensures RepeatsThroughout(d, steps, s, first) <==> StaysThroughout(d, steps, first.row, s.workspace)
    decreases |steps|
  {
    var q := SomePicks(d, s);
    forall q | Legal(d, s, q)
      ensures SaveAnswers(d, s, q) == d
      ensures Answer(d, s, q) ==
              if BelongsTo(d.rows[first.row], s.workspace) then Ok(first.(replayed := true)) else Err(Internal)
    {
      RepeatFindsTheReceipt(s, first, d, s, q);
    }
    if steps != [] {
      StepKeepsInv(d, steps[0]);
      StepKeepsReceipts(d, steps[0]);
      RepeatsWhileTheRowStays(Exec(d, steps[0]), steps[1..], s, first);
    }
  }

  /** The statement can always pick. */
  lemma SomePicks(d: Db, s: Save) returns (p: Picks)
    ensures Legal(d, s, p)
  {
    var row := SomeNewestRow(d, s.workspace, d.rows.Keys);
    var request := SomeNewestRequest(d, s, d.requests.Keys);
    p := Picks(row, if row.Some? then None else request);
  }

  lemma {:induction false} SomeNewestRow(d: Db, w: string, ids: set<string>) returns (pick: Option<string>)
    requires ids <= d.rows.Keys
    ensures pick.None? ==> forall i | i in ids :: !BelongsTo(d.rows[i], w)
    ensures pick.Some? ==> pick.value in ids && BelongsTo(d.rows[pick.value], w)
                           && forall i | i in ids && BelongsTo(d.rows[i], w) ::
                              d.rows[i].updated <= d.rows[pick.value].updated
    decreases |ids|
  {
    pick := None;
    if i :| i in ids {
      pick := SomeNewestRow(d, w, ids - {i});
      if BelongsTo(d.rows[i], w) && (pick.None? || d.rows[i].updated > d.rows[pick.value].updated) {
        pick := Some(i);
      }
    }
  }

  lemma {:induction false} SomeNewestRequest(d: Db, s: Save, ids: set<string>) returns (pick: Option<string>)
    requires ids <= d.requests.Keys
    ensures pick.None? ==> forall i | i in ids :: !Candidate(d.requests[i], s)
    ensures pick.Some? ==> pick.value in ids && Candidate(d.requests[pick.value], s)
                           && forall i | i in ids && Candidate(d.requests[i], s) ::
                                d.requests[i].updated <= d.requests[pick.value].updated
    decreases |ids|
  {
    pick := None;
    if i :| i in ids {
      pick := SomeNewestRequest(d, s, ids - {i});
      if Candidate(d.requests[i], s) && (pick.None? || d.requests[i].updated > d.requests[pick.value].updated) {
        pick := Some(i);
      }
    }
  }

  /**
   Where rows and invitations agree, a repeat returns the first revision, and other answers under the same
   client request are refused, after any run whose attachments keep the agreement and in which no
   provisioning re-points the row's own request; neither writes anything.
   */
  lemma RepeatReturnsTheFirstRevision(db: Db, s: Save, p: Picks, steps: seq<Step>, t: Save, q: Picks)
    requires Inv(db) && Aligned(db) && Legal(db, s, p) && Answer(db, s, p).Ok? && SameKey(s, t) && !Invalid(t)
    requires RunLegal(SaveAnswers(db, s, p), steps) && AlignedRun(SaveAnswers(db, s, p), steps)
    requires Legal(Run(SaveAnswers(db, s, p), steps), t, q)
    requires var d, r := SaveAnswers(db, s, p), Answer(db, s, p).value.row;
             r in d.rows && forall k | 0 <= k < |steps| :: !TakesAway(steps[k], d.rows[r].request, s.workspace)
    ensures var e := Run(SaveAnswers(db, s, p), steps);
            && SaveAnswers(e, t, q) == e
            && Answer(e, t, q) == if t.digest != s.digest then Err(Conflict)
                                  else Ok(Answer(db, s, p).value.(replayed := true))
  {
    var d := SaveAnswers(db, s, p);
    SaveKeepsInv(db, s, p);
    SaveKeepsAligned(db, s, p);
    ReceiptOfTheSave(db, s, p);
    RunKeepsPlace(d, steps, Answer(db, s, p).value.row, s.workspace);
    RepeatExactly(db, s, p, steps, t, q);
  }

  /**
   The agreement is needed: a row stamped onto workspace `v` by email, whose request invites to `w`,
   is moved to `w` by a save there, and a repeat of the save in `v` then fails.
   */
  lemma MovedRowBreaksTheRepeat(db: Db, s: Save, first: Picks, t: Save, again: Save)
    requires Inv(db) && Legal(db, s, first) && first.row.Some? && Writes(db, s, first)
    requires db.requests[db.rows[first.row.value].request].invited == Some(t.workspace) && t.workspace != s.workspace
    requires var d := SaveAnswers(db, s, first); var p := Picks(None, Some(db.rows[first.row.value].request));
             Legal(d, t, p) && Writes(d, t, p) && SameKey(s, again) && !Invalid(again)
    ensures var e := SaveAnswers(SaveAnswers(db, s, first), t, Picks(None, Some(db.rows[first.row.value].request)));
            forall q | Legal(e, again, q) :: Answer(e, again, q) == Err(Internal)
  {
    var d, r := SaveAnswers(db, s, first), first.row.value;
    var p := Picks(None, Some(db.rows[r].request));
    SaveKeepsInv(db, s, first);
    SaveKeepsRowsUnique(db, s, first);
    ReceiptOfTheSave(db, s, first);
    assert d.rows[r].request == db.rows[r].request;
    SaveMovesRow(d, t, p, r);
    forall q | Legal(SaveAnswers(d, t, p), again, q) ensures Answer(SaveAnswers(d, t, p), again, q) == Err(Internal) {
      RepeatFindsTheReceipt(s, Answer(db, s, first).value, SaveAnswers(d, t, p), again, q);
    }
  }

  /** A save whose request already has a readiness row takes that row over, wherever it belonged. */
  lemma SaveMovesRow(d: Db, t: Save, p: Picks, r: string)
    requires Inv(d) && Legal(d, t, p) && Writes(d, t, p)
    requires r in d.rows && d.rows[r].request == TargetRequest(d, t, p)
    ensures var e := SaveAnswers(d, t, p);
            && Inv(e) && r in e.rows && e.rows[r].workspace == Some(t.workspace)
            && forall i | i in d.receipts :: i in e.receipts && e.receipts[i] == d.receipts[i]
  {
    SaveKeepsInv(d, t, p);
    assert TargetRow(d, t, p) == r;
  }

  const DIGEST := seq(64, i => 'a')

  const BLANK := Profile("company", false, "{}", "{}", None, None, None, None, None, None, Some(IN_APP))

  const INVITED := Db(map["q" := Request("a@x", Some("w"), true, None, None, None, 0)],
                      map["r" := Row("q", None, None, "a@x", BLANK, 0)], map[], 0)

  /** The shortest such run: invited to `w`, attached to `v`, saved in `v`, saved in `w`, repeated in `v`. */
  lemma AttachedElsewhereFails()
    ensures Inv(INVITED) && Aligned(INVITED)
    ensures var db := Attach(INVITED, Attachment("a@x", "v", None, 1));
            var s := Save("v", "u", "a@x", "c", DIGEST, BLANK, "q1", "r1", 2);
            var t := Save("w", "u", "a@x", "d", DIGEST, BLANK, "q2", "r2", 3);
            var p, q := Picks(Some("r"), None), Picks(None, Some("q"));
            && Legal(db, s, p) && Legal(SaveAnswers(db, s, p), t, q)
            && var e := SaveAnswers(SaveAnswers(db, s, p), t, q);
               Answer(db, s, p) == Ok(Revision("r", 0, false, DIGEST)) && Legal(e, s, Picks(None, None))
               && Answer(e, s, Picks(None, None)) == Err(Internal)
  {
    var db := Attach(INVITED, Attachment("a@x", "v", None, 1));
    assert db.rows == map["r" := Row("q", None, Some("v"), "a@x", BLANK, 1)];
    assert IsDigest(DIGEST);
    var s := Save("v", "u", "a@x", "c", DIGEST, BLANK, "q1", "r1", 2);
    var t := Save("w", "u", "a@x", "d", DIGEST, BLANK, "q2", "r2", 3);
    var p, q := Picks(Some("r"), None), Picks(None, Some("q"));
    var d := SaveAnswers(db, s, p);
    assert d.rows == map["r" := Row("q", Some("u"), Some("v"), "a@x", BLANK, 2)];
    assert d.requests == map["q" := Request("a@x", Some("w"), true, Some("u"), None, None, 2)];
    var e := SaveAnswers(d, t, q);
    assert e.rows == map["r" := Row("q", Some("u"), Some("w"), "a@x", BLANK, 3)];
    assert e.requests == map["q" := Request("a@x", Some("w"), true, Some("u"), None, None, 3)];
    MovedRowBreaksTheRepeat(db, s, p, t, s);
  }
}
