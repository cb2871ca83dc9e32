/** The readiness writers as methods that change the three tables in place, proved against ReadinessStore. */
module ReadinessDatabase {
  import opened Wrappers
  import opened ReadinessStore
  import opened ReadinessTheorems

  class Database {
    var requests: map<string, Request>
    var rows: map<string, Row>
    var receipts: map<nat, Receipt>
    var nextReceipt: nat

    ghost function State(): Db
      reads this
    {
      Db(requests, rows, receipts, nextReceipt)
    }

    ghost predicate Valid()
      reads this
    {
      Inv(State())
    }

    constructor (requests: map<string, Request>)
      ensures Valid() && State() == Db(requests, map[], map[], 0)
    {
      this.requests, rows, receipts, nextReceipt := requests, map[], map[], 0;
    }

    /* ---------------- reads ---------------- */

    method SelectReceipt(s: Save) returns (r: Option<nat>)
      requires Valid()
      ensures r == FindReceipt(State(), s)
    {
      if i :| i in receipts && ReceiptMatch(receipts[i], s) {
        StoredReceiptIsFound(State(), s, i);
        r := Some(i);
      } else {
        r := None;
      }
    }

    method SelectRow(request: string) returns (r: Option<string>)
      requires Valid()
      ensures r == FindRow(State(), request)
    {
      if i :| i in rows && rows[i].request == request {
        assert rows[FindRow(State(), request).value].request == rows[i].request;
        r := Some(i);
      } else {
        r := None;
      }
    }

    method SelectNewestRow(workspace: string) returns (pick: Option<string>)
      ensures NewestRow(State(), workspace, pick)
    {
      pick := None;
      var left := rows.Keys;
      while left != {}
        invariant left <= rows.Keys
        invariant pick.None? ==> forall i | i in rows && i !in left :: !BelongsTo(rows[i], workspace)
        invariant pick.Some? ==> pick.value in rows && BelongsTo(rows[pick.value], workspace)
        invariant pick.Some? ==> forall i | i in rows && i !in left && BelongsTo(rows[i], workspace) ::
                                   rows[i].updated <= rows[pick.value].updated
        decreases left
      {
        var i :| i in left;
        left := left - {i};
        if BelongsTo(rows[i], workspace) && (pick.None? || rows[i].updated > rows[pick.value].updated) {
          pick := Some(i);
        }
      }
    }

    method SelectNewestRequest(s: Save) returns (pick: Option<string>)
      ensures NewestRequest(State(), s, pick)
    {
      pick := None;
      var left := requests.Keys;
      while left != {}
        invariant left <= requests.Keys
        invariant pick.None? ==> forall i | i in requests && i !in left :: !Candidate(requests[i], s)
        invariant pick.Some? ==> pick.value in requests && Candidate(requests[pick.value], s)
        invariant pick.Some? ==> forall i | i in requests && i !in left && Candidate(requests[i], s) ::
                                   requests[i].updated <= requests[pick.value].updated
        decreases left
      {
        var i :| i in left;
        left := left - {i};
        if Candidate(requests[i], s) && (pick.None? || requests[i].updated > requests[pick.value].updated) {
          pick := Some(i);
        }
      }
    }

    /* ---------------- the save ---------------- */

    method SaveWorkspaceReadiness(s: Save) returns (r: Result<Revision, Error>, picks: Picks)
      requires Valid()
      modifies this
      ensures Valid() && Legal(old(State()), s, picks)
      ensures State() == SaveAnswers(old(State()), s, picks) && r == Answer(old(State()), s, picks)
    {
      var row := SelectNewestRow(s.workspace);
      var request := None;
      if row.None? {
        request := SelectNewestRequest(s);
      }
      picks := Picks(row, request);
      SaveKeepsInv(State(), s, picks);
      if Invalid(s) {
        r := Err(Validation);
        return;
      }
      var prior := SelectReceipt(s);
      if prior.Some? {
        r := Replay(s, prior.value);
        return;
      }
      var target := if row.Some? then rows[row.value].request else if request.Some? then request.value else s.requestId;
      var existing := SelectRow(target);
      if (row.None? && request.None? && s.requestId in requests) || (existing.None? && s.rowId in rows) {
        r := Err(DuplicateRow);
        return;
      }
      r := WriteSave(s, picks, target, if existing.Some? then existing.value else s.rowId);
    }

    method Replay(s: Save, id: nat) returns (r: Result<Revision, Error>)
      requires !Invalid(s) && FindReceipt(State(), s) == Some(id)
      ensures forall p | Legal(State(), s, p) :: r == Answer(State(), s, p)
    {
      var stored := receipts[id];
      if stored.row !in rows || !BelongsTo(rows[stored.row], s.workspace) {
        return Err(Internal);
      }
      if stored.digest != s.digest {
        return Err(Conflict);
      }
      r := Ok(Revision(stored.row, id, true, s.digest));
    }

    method WriteSave(s: Save, picks: Picks, target: string, id: string) returns (r: Result<Revision, Error>)
      requires Legal(State(), s, picks) && Writes(State(), s, picks)
      requires target == TargetRequest(State(), s, picks) && id == TargetRow(State(), s, picks)
      modifies this
      ensures State() == SaveAnswers(old(State()), s, picks)
      ensures r == Ok(Revision(id, old(nextReceipt), false, s.digest))
    {
      if CreatesRequest(picks) {
        requests := requests[target := NewRequest(s)];
      } else if target in requests {
        requests := requests[target := LinkedRequest(requests[target], s)];
      }
      var before := if id in rows then Some(rows[id]) else None;
      rows := rows[id := SavedRow(before, s, target)];
      receipts := receipts[nextReceipt := Receipt(s.workspace, s.user, s.client, s.digest, id)];
      r := Ok(Revision(id, nextReceipt, false, s.digest));
      nextReceipt := nextReceipt + 1;
    }

    /* ---------------- the other writers ---------------- */

    method CreateReadinessAssessment(g: Registration)
      requires Valid()
      modifies this
      ensures Valid() && State() == Register(old(State()), g)
    {
      RegisterKeepsInv(State(), g);
      if g.request == "" || g.email == "" || g.request !in requests {
        return;
      }
      var id := g.rowId;
      var existing := SelectRow(g.request);
      if existing.Some? {
        id := existing.value;
        rows := rows[id := rows[id].(profile := Registered(rows[id].profile, g.profile), updated := g.at)];
      } else if id in rows {
        return;
      } else {
        rows := rows[id := Row(g.request, None, None, g.email, g.profile, g.at)];
      }
      requests := requests[g.request := requests[g.request].(
        account := Some(g.profile.account), assessment := Some(id), updated := g.at)];
    }

    method RepointByProvisioning(v: Provisioning)
      requires Valid()
      modifies this
      ensures Valid() && State() == Provision(old(State()), v)
    {
      StepKeepsInv(State(), Provisions(v));
      if v.request == "" {
        return;
      }
      requests := map q | q in requests ::
        if q == v.request then
          requests[q].(invited := Some(v.workspace), user := Coalesce(requests[q].user, Some(v.owner)), updated := v.at)
        else requests[q];
      rows := map i | i in rows ::
        if Repoints(rows[i], v) then rows[i].(workspace := Some(v.workspace), updated := v.at) else rows[i];
    }

    method AttachReadinessByEmail(a: Attachment)
      requires Valid()
      modifies this
      ensures Valid() && State() == Attach(old(State()), a)
    {
      StepKeepsInv(State(), AttachesAll(a));
      rows := map i | i in rows ::
        if Attaches(rows[i], a) then
          rows[i].(workspace := Some(a.workspace), user := Coalesce(rows[i].user, a.user), updated := a.at)
        else rows[i];
    }
  }
}
