/** The writers of operation_events: insert if absent, status claim, archive, restore, purge. */
module EventLifecycle {
  import opened Wrappers
  import opened Events

  datatype Patch = Patch(status: Status, approval: Option<Approval>, nextAction: Option<string>)

  datatype Step =
    | Insert(workspace: string, id: nat, event: Event)
    | SetStatus(workspace: string, id: nat, patch: Patch, expected: Option<Status>)
    | Archive(workspace: string, id: nat, at: int)
    | Restore(workspace: string, id: nat, receipt: nat, actor: Option<string>, at: int)
    | Purge(now: int, days: int)

  predicate Within(t: Table, workspace: string, id: nat) { id in t && t[id].workspace == workspace }

  predicate Sets(t: Table, s: Step)
    requires s.SetStatus?
  {
    && s.workspace != "" && Within(t, s.workspace, s.id)
    && (s.expected.Some? ==> t[s.id].status == s.expected.value)
  }

  function Patched(e: Event, p: Patch): Event {
    e.(status := p.status, approval := Coalesce(p.approval, e.approval),
       nextAction := Coalesce(p.nextAction, e.nextAction))
  }

  predicate Archives(t: Table, s: Step)
    requires s.Archive?
  {
    s.workspace != "" && Within(t, s.workspace, s.id) && t[s.id].archived.None?
  }

  predicate Restores(t: Table, s: Step)
    requires s.Restore?
  {
    s.workspace != "" && Within(t, s.workspace, s.id) && t[s.id].archived.Some? && s.receipt !in t
  }

  /** The event that records a restore, as a reply to the restored one. */
  function RestoreReceipt(t: Table, s: Step): Event
    requires s.Restore? && s.id in t
  {
    Event(s.workspace, t[s.id].project, "xlooop", None, "Event restored", None, Completed, None, None,
          InternalWorkspace, Some(s.id), s.actor, s.at, None)
  }

  const DAY := 86400

  function Retention(days: int): int {
    var d := if days == 0 then 30 else days;
    DAY * (if d < 1 then 1 else if d > 3650 then 3650 else d)
  }

  predicate Purged(e: Event, s: Step)
    requires s.Purge?
  {
    e.archived.Some? && e.archived.value < s.now - Retention(s.days) && e.source == "xlooop"
  }

  datatype Upsert = Created | AlreadyThere | RaisedDuplicate | Unscoped

  /**
   The upsert looks the id up in its workspace and then inserts, with `gap` in between. Ids are unique over
   all workspaces, so one taken elsewhere, or taken in the gap, makes the insert fail.
   */
  function Upserted(t: Table, workspace: string, id: nat, e: Event, gap: seq<Step>): (Table, Upsert) {
    if workspace == "" then (t, Unscoped)
    else if Within(t, workspace, id) then (t, AlreadyThere)
    else
      var d := Run(t, gap);
      if id in d then (d, RaisedDuplicate) else (Exec(d, Insert(workspace, id, e)), Created)
  }

  function Exec(t: Table, s: Step): Table {
    match s
    case Insert(w, id, e) => if w == "" || id in t then t else t[id := e.(workspace := w, archived := None)]
    case SetStatus(w, id, p, _) => if Sets(t, s) then t[id := Patched(t[id], p)] else t
    case Archive(w, id, at) => if Archives(t, s) then t[id := t[id].(archived := Some(at))] else t
    case Restore(w, id, receipt, _, _) =>
      if Restores(t, s) then t[id := t[id].(archived := None)][receipt := RestoreReceipt(t, s)] else t
    case Purge(_, _) => map i | i in t && !Purged(t[i], s) :: t[i]
  }

  function Run(t: Table, steps: seq<Step>): Table
    decreases |steps|
  {
    if steps == [] then t else Run(Exec(t, steps[0]), steps[1..])
  }

  /* ---------------- append-only content ---------------- */

  /** Everything but the status, approval, next-action and archive columns. */
  predicate SameContent(a: Event, b: Event) {
    b == a.(status := b.status, approval := b.approval, nextAction := b.nextAction, archived := b.archived)
  }

  predicate Reinserts(s: Step, id: nat) { (s.Insert? && s.id == id) || (s.Restore? && s.receipt == id) }

  /** A stored event keeps its content; one that did not come from the product itself is never deleted. */
  lemma {:induction false} ContentIsAppendOnly(t: Table, steps: seq<Step>, id: nat)
    requires id in t && forall k | 0 <= k < |steps| :: !Reinserts(steps[k], id)
    ensures id in Run(t, steps) ==> SameContent(t[id], Run(t, steps)[id])
    ensures t[id].source != "xlooop" ==> id in Run(t, steps)
    decreases |steps|
  {
    if steps != [] {
      var d := Exec(t, steps[0]);
      assert !Reinserts(steps[0], id);
      if id in d {
        assert SameContent(t[id], d[id]);
        ContentIsAppendOnly(d, steps[1..], id);
      } else {
        assert steps[0].Purge? && t[id].source == "xlooop";
        StaysAway(d, steps[1..], id);
      }
    }
  }

  lemma {:induction false} StaysAway(t: Table, steps: seq<Step>, id: nat)
    requires id !in t && forall k | 0 <= k < |steps| :: !Reinserts(steps[k], id)
    ensures id !in Run(t, steps)
    decreases |steps|
  {
    if steps != [] {
      assert !Reinserts(steps[0], id);
      StaysAway(Exec(t, steps[0]), steps[1..], id);
    }
  }

  lemma {:induction false} RunAppend(t: Table, a: seq<Step>, b: seq<Step>)
    ensures Run(t, a + b) == Run(Run(t, a), b)
    decreases |a|
  {
    if a == [] {
      assert a + b == b;
    } else {
      assert (a + b)[1..] == a[1..] + b;
      RunAppend(Exec(t, a[0]), a[1..], b);
    }
  }

  lemma {:induction false} OnlyReinsertsAdd(t: Table, steps: seq<Step>, id: nat)
    requires id !in t && id in Run(t, steps)
    ensures exists k :: 0 <= k < |steps| && Reinserts(steps[k], id)
    decreases |steps|
  {
    if forall k | 0 <= k < |steps| :: !Reinserts(steps[k], id) {
      StaysAway(t, steps, id);
    }
  }

  /**
   An upsert changes no stored event of its own; it fails exactly when another workspace has the id, or
   when the id was free and some writer in the gap put an event there that is still stored.
   */
  lemma UpsertFailsExactly(t: Table, workspace: string, id: nat, e: Event, gap: seq<Step>)
    requires workspace != "" && !Within(t, workspace, id)
    ensures var (d, r) := Upserted(t, workspace, id, e, gap);
            && (r == RaisedDuplicate <==> id in Run(t, gap))
            && (r == RaisedDuplicate && id !in t ==> exists k :: 0 <= k < |gap| && Reinserts(gap[k], id))
            && (forall i | i in Run(t, gap) :: i in d && d[i] == Run(t, gap)[i])
            && (r == Created ==> d == Run(t, gap)[id := e.(workspace := workspace, archived := None)])
  {
    if id !in t && id in Run(t, gap) {
      OnlyReinsertsAdd(t, gap, id);
    }
  }

  /** Once created or found there, the same upsert is answered "already there" until the event is purged. */
  lemma UpsertRepeats(t: Table, workspace: string, id: nat, e: Event, gap: seq<Step>, later: seq<Step>, f: Event,
                      again: seq<Step>)
    requires Upserted(t, workspace, id, e, gap).1 in {Created, AlreadyThere}
    requires var d := Upserted(t, workspace, id, e, gap).0;
             id in Run(d, later) && forall k | 0 <= k < |later| :: !Reinserts(later[k], id)
    ensures var d := Run(Upserted(t, workspace, id, e, gap).0, later);
            Upserted(d, workspace, id, f, again) == (d, AlreadyThere)
  {
    ContentIsAppendOnly(Upserted(t, workspace, id, e, gap).0, later, id);
  }

  /* ---------------- the status claim ---------------- */

  predicate IsClaim(s: Step, id: nat, from: Status) {
    s.SetStatus? && s.id == id && s.expected == Some(from) && s.patch.status != from
  }

  /** Puts this event (back) into the state that claims start from. */
  predicate Requeues(s: Step, id: nat, from: Status) {
    || (s.SetStatus? && s.id == id && s.patch.status == from)
    || Reinserts(s, id)
  }

  function ClaimsWon(t: Table, steps: seq<Step>, id: nat, from: Status): nat
    decreases |steps|
  {
    if steps == [] then 0
    else
      (if IsClaim(steps[0], id, from) && Sets(t, steps[0]) then 1 else 0)
      + ClaimsWon(Exec(t, steps[0]), steps[1..], id, from)
  }

  function Requeued(steps: seq<Step>, id: nat, from: Status): nat {
    if steps == [] then 0 else (if Requeues(steps[0], id, from) then 1 else 0) + Requeued(steps[1..], id, from)
  }

  /**
   However many consumers try, at most one claim wins per time the event was put into the state they
   claim from: with no requeue, at most one in all.
   */
  lemma {:induction false} OneClaimPerQueueing(t: Table, steps: seq<Step>, id: nat, from: Status)
    ensures ClaimsWon(t, steps, id, from) <= Requeued(steps, id, from)
            + (if id in t && t[id].status == from then 1 else 0)
    decreases |steps|
  {
    if steps != [] {
      OneClaimPerQueueing(Exec(t, steps[0]), steps[1..], id, from);
    }
  }

  /* ---------------- archive and restore ---------------- */

  /** Restoring undoes archiving: the event is as it was, and one reply to it is added. */
  lemma RestoreUndoesArchive(t: Table, a: Step, r: Step)
    requires a.Archive? && r.Restore? && a.workspace == r.workspace && a.id == r.id && Archives(t, a) && r.receipt !in t
    ensures Restores(Exec(t, a), r)
    ensures Exec(Exec(t, a), r) == t[r.receipt := RestoreReceipt(t, r)]
  {
  }

  class Store {
    var rows: Table

    constructor ()
      ensures rows == map[]
    {
      rows := map[];
    }

    method UpsertEvent(workspace: string, id: nat, e: Event, gap: seq<Step>) returns (r: Upsert)
      modifies this
      ensures (rows, r) == Upserted(old(rows), workspace, id, e, gap)
    {
      if workspace == "" {
        return Unscoped;
      }
      if id in rows && rows[id].workspace == workspace {
        return AlreadyThere;
      }
      OtherWriters(gap);
      var inserted := InsertEvent(workspace, id, e);
      r := if inserted then Created else RaisedDuplicate;
    }

    method InsertEvent(workspace: string, id: nat, e: Event) returns (inserted: bool)
      modifies this
      ensures rows == Exec(old(rows), Insert(workspace, id, e))
      ensures inserted == (workspace != "" && id !in old(rows))
    {
      inserted := workspace != "" && id !in rows;
      if inserted {
        rows := rows[id := e.(workspace := workspace, archived := None)];
      }
    }

    method UpdateEventStatus(workspace: string, id: nat, p: Patch, expected: Option<Status>) returns (updated: bool)
      modifies this
      ensures rows == Exec(old(rows), SetStatus(workspace, id, p, expected))
      ensures updated == Sets(old(rows), SetStatus(workspace, id, p, expected))
    {
      updated := workspace != "" && id in rows && rows[id].workspace == workspace
                 && (expected.None? || rows[id].status == expected.value);
      if updated {
        var e := rows[id].(status := p.status);
        if p.approval.Some? {
          e := e.(approval := p.approval);
        }
        if p.nextAction.Some? {
          e := e.(nextAction := p.nextAction);
        }
        rows := rows[id := e];
      }
    }

    method ArchiveEvent(workspace: string, id: nat, at: int) returns (updated: bool)
      modifies this
      ensures rows == Exec(old(rows), Archive(workspace, id, at))
      ensures updated == Archives(old(rows), Archive(workspace, id, at))
    {
      updated := workspace != "" && id in rows && rows[id].workspace == workspace && rows[id].archived.None?;
      if updated {
        rows := rows[id := rows[id].(archived := Some(at))];
      }
    }

    method RestoreEvent(workspace: string, id: nat, receipt: nat, actor: Option<string>, at: int)
      returns (updated: bool)
      modifies this
      ensures rows == Exec(old(rows), Restore(workspace, id, receipt, actor, at))
      ensures updated == Restores(old(rows), Restore(workspace, id, receipt, actor, at))
    {
      updated := workspace != "" && id in rows && rows[id].workspace == workspace
                 && rows[id].archived.Some? && receipt !in rows;
      if updated {
        var reply := Event(workspace, rows[id].project, "xlooop", None, "Event restored", None, Completed, None, None,
                           InternalWorkspace, Some(id), actor, at, None);
        rows := rows[id := rows[id].(archived := None)];
        rows := rows[receipt := reply];
      }
    }

    method PurgeArchived(now: int, days: int) returns (deleted: nat)
      modifies this
      ensures rows == Exec(old(rows), Purge(now, days))
      ensures deleted + |rows| == |old(rows)|
    {
      var gone := set i | i in rows && Purged(rows[i], Purge(now, days));
      deleted := |gone|;
      rows := rows - gone;
      assert old(rows).Keys == rows.Keys + gone;
    }

    /* ---------------- other writers ---------------- */

    method ExecuteStep(s: Step)
      modifies this
      ensures rows == Exec(old(rows), s)
    {
      match s {
        case Insert(w, id, e) => var _ := InsertEvent(w, id, e);
        case SetStatus(w, id, p, expected) => var _ := UpdateEventStatus(w, id, p, expected);
        case Archive(w, id, at) => var _ := ArchiveEvent(w, id, at);
        case Restore(w, id, receipt, actor, at) => var _ := RestoreEvent(w, id, receipt, actor, at);
        case Purge(now, days) => var _ := PurgeArchived(now, days);
      }
    }

    method OtherWriters(steps: seq<Step>)
      modifies this
      ensures rows == Run(old(rows), steps)
    {
      for i := 0 to |steps|
        invariant rows == Run(old(rows), steps[..i])
      {
        RunAppend(old(rows), steps[..i], [steps[i]]);
        assert steps[..i + 1] == steps[..i] + [steps[i]];
        ghost var before := rows;
        ExecuteStep(steps[i]);
        assert [steps[i]][1..] == [] && Run(before, [steps[i]]) == rows;
      }
      assert steps[..|steps|] == steps;
    }
  }
}
