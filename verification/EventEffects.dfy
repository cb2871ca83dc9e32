/** What the event reads show and the event writers leave, column by column. */
module EventEffects {
  import opened Wrappers
  import opened Events
  import opened EventPaging
  import opened EventLifecycle

  /* ---------------- what is shown ---------------- */

  /** Owners see all, operators all but what is for owners, viewers project and public, clients the public. */
  lemma RolesSee(role: Role, v: Visibility)
    ensures v in VisibilityForRole(role) <==>
            && (v == InternalOwnerOnly ==> role == Owner)
            && (v == InternalWorkspace ==> role == Owner || role == Operator)
            && (v == InternalProject ==> role != Client)
  {
  }

  /** The list asks for an unarchived event of the workspace that the role may see and every filter admits. */
  predicate Asked(e: Event, workspace: string, f: Filter) {
    && e.workspace == workspace && e.archived == None
    && (e.visibility == InternalOwnerOnly ==> f.role == Owner)
    && (e.visibility == InternalWorkspace ==> f.role == Owner || f.role == Operator)
    && (e.visibility == InternalProject ==> f.role != Client)
    && (f.project != None ==> e.project == f.project) && (f.status != None ==> Some(e.status) == f.status)
    && (f.source != None ==> Some(e.source) == f.source) && (f.parent != None ==> e.parent == f.parent)
    && (f.parent == None && f.topLevel ==> e.parent == None)
    && (f.attention ==>
          || (e.status == NeedsReview && e.approval != Some(ApprovalGiven))
          || e.status == Blocked)
  }

  /** Shown as stored, but for the principal, whom viewers and clients do not see. */
  predicate ShownAs(e: Event, shown: Event, role: Role) {
    && shown == e.(principal := shown.principal)
    && shown.principal == if role == Viewer || role == Client then None else e.principal
  }

  lemma AskedIsMatched(e: Event, workspace: string, f: Filter)
    ensures Asked(e, workspace, f) <==> Matches(e, workspace, f)
  {
    RolesSee(f.role, e.visibility);
  }

  function AskedBefore(t: Table, workspace: string, f: Filter, before: Option<nat>): set<nat> {
    set i | i in t && Asked(t[i], workspace, f) && (before.Some? ==> i < before.value)
  }

  lemma AskedIsCut(t: Table, workspace: string, f: Filter, before: Option<nat>)
    ensures AskedBefore(t, workspace, f, before) == Cut(Matching(t, workspace, f), before)
  {
    forall i | i in t ensures Asked(t[i], workspace, f) <==> Matches(t[i], workspace, f) {
      AskedIsMatched(t[i], workspace, f);
    }
  }

  /** Shown in order, each once, each as its role may see it, and nothing left out is newer than what is shown. */
  ghost predicate ShowsNewest(t: Table, asked: set<nat>, shown: seq<(nat, Event)>, role: Role) {
    && asked <= t.Keys
    && (forall k | 0 <= k < |shown| :: shown[k].0 in asked && ShownAs(t[shown[k].0], shown[k].1, role))
    && (forall j, k | 0 <= j < k < |shown| :: Newer(t, shown[j].0, shown[k].0) && shown[j].0 != shown[k].0)
    && forall i, k | i in asked && 0 <= k < |shown| && (forall j | 0 <= j < |shown| :: shown[j].0 != i) ::
         Newer(t, shown[k].0, i)
  }

  lemma PrefixShowsNewest(t: Table, asked: set<nat>, n: nat, role: Role)
    requires asked <= t.Keys && n <= |Ordered(t, asked)|
    ensures forall i | i in Ordered(t, asked)[..n] :: i in t
    ensures ShowsNewest(t, asked, Shown(t, Ordered(t, asked)[..n], role), role)
  {
    OrderedIsTheList(t, asked);
    PrefixOfTheList(t, asked, Ordered(t, asked), n, role);
  }

  lemma PrefixOfTheList(t: Table, asked: set<nat>, rows: seq<nat>, n: nat, role: Role)
    requires asked <= t.Keys && (forall i :: i in asked <==> i in rows) && InOrder(t, rows) && n <= |rows|
    ensures ShowsNewest(t, asked, Shown(t, rows[..n], role), role)
  {
    var shown := Shown(t, rows[..n], role);
    assert forall k | 0 <= k < n :: shown[k].0 == rows[k] && rows[k] in asked;
    forall i, k | i in asked && 0 <= k < n && (forall j | 0 <= j < n :: shown[j].0 != i)
      ensures Newer(t, shown[k].0, i)
    {
      assert forall j | 0 <= j < n :: rows[j] == shown[j].0 != i;
      var m :| 0 <= m < |rows| && rows[m] == i;
      assert Newer(t, rows[k], rows[m]);
    }
  }

  /**
   One page: the newest of the asked events with an id below the cursor, fifty of them unless a limit says
   otherwise, never more than two hundred; there are more exactly when they do not fit, and then the cursor is
   the last id shown.
   */
  lemma PageExactly(t: Table, workspace: string, f: Filter, before: Option<nat>, limit: Option<int>)
    requires limit.None? || limit.value >= 1
    ensures var n := if limit.None? then 50 else if limit.value > 200 then 200 else limit.value;
            var asked := AskedBefore(t, workspace, f, before);
            var p := ListEvents(t, workspace, f, before, limit);
            && p.Some? && |p.value.events| == (if |asked| <= n then |asked| else n)
            && (p.value.more <==> |asked| > n)
            && p.value.next == (if |asked| > n then Some(p.value.events[n - 1].0) else None)
            && ShowsNewest(t, asked, p.value.events, f.role)
  {
    PageOfTheList(t, workspace, f, before, limit);
    PageByRows(t, AskedBefore(t, workspace, f, before), PageSize(limit), f.role,
               ListEvents(t, workspace, f, before, limit));
  }

  lemma PageByRows(t: Table, asked: set<nat>, n: nat, role: Role, p: Option<Page>)
    requires asked <= t.Keys && n >= 1
    requires forall i | i in Ordered(t, asked) :: i in t
    requires |Ordered(t, asked)| == |asked|
    requires && p.Some? && p.value.more == (|asked| > n)
             && p.value.events == Shown(t, Ordered(t, asked)[..if |asked| > n then n else |asked|], role)
             && p.value.next == if |asked| > n then Some(p.value.events[n - 1].0) else None
    ensures && |p.value.events| == (if |asked| <= n then |asked| else n)
            && (p.value.more <==> |asked| > n)
            && p.value.next == (if |asked| > n then Some(p.value.events[n - 1].0) else None)
            && ShowsNewest(t, asked, p.value.events, role)
  {
    PrefixShowsNewest(t, asked, if |asked| > n then n else |asked|, role);
  }

  lemma PageOfTheList(t: Table, workspace: string, f: Filter, before: Option<nat>, limit: Option<int>)
    requires PageSize(limit) >= 1
    ensures var n, asked := PageSize(limit), AskedBefore(t, workspace, f, before);
            var rows, p := Ordered(t, asked), ListEvents(t, workspace, f, before, limit);
            && |rows| == |asked| && (forall i | i in rows :: i in t)
            && p.Some? && p.value.events == Shown(t, rows[..if |asked| > n then n else |asked|], f.role)
            && p.value.more == (|asked| > n)
            && p.value.next == if |asked| > n then Some(p.value.events[n - 1].0) else None
  {
    AskedIsCut(t, workspace, f, before);
    var rows := Ordered(t, AskedBefore(t, workspace, f, before));
    OrderedIsTheList(t, AskedBefore(t, workspace, f, before));
    assert rows[..|rows|] == rows;
  }

  /** A limit of zero fails where there is anything to show, and a negative one always. */
  lemma BadLimitFails(t: Table, workspace: string, f: Filter, before: Option<nat>, limit: int)
    requires limit < 1
    ensures ListEvents(t, workspace, f, before, Some(limit)).None? <==>
            limit < 0 || AskedBefore(t, workspace, f, before) != {}
  {
    AskedIsCut(t, workspace, f, before);
    OrderedIsTheList(t, AskedBefore(t, workspace, f, before));
  }

  /* ---------------- what the writers leave ---------------- */

  predicate InWorkspace(t: Table, workspace: string, id: nat) {
    workspace != "" && id in t && t[id].workspace == workspace
  }

  /** Days of retention: thirty unless said otherwise, at least one and at most ten years. */
  predicate Days(asked: int, d: int) {
    && (asked == 0 ==> d == 30) && (1 <= asked <= 3650 ==> d == asked) && (asked < 0 ==> d == 1)
       && (asked > 3650 ==> d == 3650)
  }

  predicate PastRetention(e: Event, now: int, d: int) {
    e.source == "xlooop" && e.archived != None && e.archived.value < now - 24 * 60 * 60 * d
  }

  /** The purge takes exactly the product's own events that were archived longer ago than the retention. */
  lemma PurgeExactly(t: Table, now: int, days: int, d: int)
    requires Days(days, d)
    ensures var e := Exec(t, Purge(now, days));
            && (forall i | i in t :: i !in e <==> PastRetention(t[i], now, d))
            && forall i | i in e :: i in t && e[i] == t[i]
  {
  }

  /** Insert, status change, archive and restore: when each works, and what it leaves. */
  lemma WritersExactly(t: Table, workspace: string, id: nat, e: Event, p: Patch, expected: Option<Status>, at: int)
    ensures var d := Exec(t, Insert(workspace, id, e));
            var works := workspace != "" && id !in t;
            (!works ==> d == t)
            && (works ==> id in d && d == t[id := d[id]] && d[id] == e.(workspace := workspace, archived := None))
    ensures var d := Exec(t, SetStatus(workspace, id, p, expected));
            var works := InWorkspace(t, workspace, id) && (expected == None || expected == Some(t[id].status));
            (!works ==> d == t)
            && (works ==>
                  && id in d && d == t[id := d[id]]
                  && d[id] == t[id].(status := p.status, approval := d[id].approval, nextAction := d[id].nextAction)
                  && d[id].approval == (if p.approval.Some? then p.approval else t[id].approval)
                  && d[id].nextAction == (if p.nextAction.Some? then p.nextAction else t[id].nextAction))
    ensures var d := Exec(t, Archive(workspace, id, at));
            var works := InWorkspace(t, workspace, id) && t[id].archived == None;
            (!works ==> d == t) && (works ==> d == t[id := t[id].(archived := Some(at))])
  {
  }

  /** A restored event is as it was but unarchived, and a completed internal reply of the restorer records it. */
  lemma RestoreExactly(t: Table, workspace: string, id: nat, receipt: nat, actor: Option<string>, at: int)
    ensures var d := Exec(t, Restore(workspace, id, receipt, actor, at));
            var works := InWorkspace(t, workspace, id) && t[id].archived != None && receipt !in t;
            && (!works ==> d == t)
            && (works ==>
                  && id in d && receipt in d && d == t[id := d[id]][receipt := d[receipt]]
                  && d[id] == t[id].(archived := None)
                  && d[receipt].parent == Some(id) && d[receipt].workspace == workspace
                     && d[receipt].project == t[id].project
                  && d[receipt].status == Completed && d[receipt].visibility == InternalWorkspace
                  && d[receipt].source == "xlooop" && d[receipt].principal == actor && d[receipt].occurred == at
                  && d[receipt].archived == None)
  {
  }
}
