/**
 Paging through events newest first with an id as the cursor. The list is ordered by time and then
 id, the cursor cuts by id alone: the pages add up exactly when the two agree at every cut.
 */
module EventPaging {
  import opened Wrappers
  import opened Events

  const MAX_LIMIT: int := 200
  const DEFAULT_LIMIT: int := 50

  /* ---------------- the ordered list ---------------- */

  predicate Newer(t: Table, i: nat, j: nat)
    requires i in t && j in t
  {
    t[i].occurred > t[j].occurred || (t[i].occurred == t[j].occurred && i >= j)
  }

  ghost predicate IsNewest(t: Table, ids: set<nat>, i: nat)
    requires ids <= t.Keys
  {
    i in ids && forall j | j in ids :: Newer(t, i, j)
  }

  lemma {:induction false} SomeNewest(t: Table, ids: set<nat>)
    requires ids <= t.Keys && ids != {}
    ensures exists i :: IsNewest(t, ids, i)
  {
    var x :| x in ids;
    var rest := ids - {x};
    if rest == {} {
      assert ids == {x};
      assert IsNewest(t, ids, x);
    } else {
      SomeNewest(t, rest);
      var m :| IsNewest(t, rest, m);
      var n := if Newer(t, x, m) then x else m;
      forall j | j in ids ensures Newer(t, n, j) {
        assert j == x || Newer(t, m, j);
      }
      assert IsNewest(t, ids, n);
    }
  }

  ghost function Newest(t: Table, ids: set<nat>): (i: nat)
    requires ids <= t.Keys && ids != {}
    ensures IsNewest(t, ids, i)
  {
    SomeNewest(t, ids);
    var i :| IsNewest(t, ids, i);
    i
  }

  /** The rows in the order the statement returns them. */
  ghost function Ordered(t: Table, ids: set<nat>): seq<nat>
    requires ids <= t.Keys
    decreases |ids|
  {
    if ids == {} then []
    else
      var m := Newest(t, ids);
      [m] + Ordered(t, ids - {m})
  }

  ghost predicate InOrder(t: Table, s: seq<nat>) {
    && (forall k | 0 <= k < |s| :: s[k] in t)
    && forall j, k | 0 <= j < k < |s| :: Newer(t, s[j], s[k]) && s[j] != s[k]
  }

  /** The list holds exactly the asked ids, newest first, each once. */
  lemma {:induction false} OrderedIsTheList(t: Table, ids: set<nat>)
    requires ids <= t.Keys
    ensures |Ordered(t, ids)| == |ids| && InOrder(t, Ordered(t, ids))
    ensures forall i :: i in ids <==> i in Ordered(t, ids)
    decreases |ids|
  {
    if ids != {} {
      var m := Newest(t, ids);
      OrderedIsTheList(t, ids - {m});
      assert forall k | 0 <= k < |Ordered(t, ids - {m})| :: Ordered(t, ids - {m})[k] in ids - {m};
    }
  }

  function Below(s: seq<nat>, cut: nat): (r: seq<nat>)
    ensures |r| <= |s| && forall i :: i in r <==> i in s && i < cut
  {
    if s == [] then [] else (if s[0] < cut then [s[0]] else []) + Below(s[1..], cut)
  }

  /** Reading with a cursor is cutting the list that is read without one. */
  lemma {:induction false} CursorCutsTheList(t: Table, ids: set<nat>, cut: nat)
    requires ids <= t.Keys
    ensures Ordered(t, set i | i in ids && i < cut) == Below(Ordered(t, ids), cut)
    decreases |ids|
  {
    var low := set i | i in ids && i < cut;
    if ids != {} {
      var m := Newest(t, ids);
      CursorCutsTheList(t, ids - {m}, cut);
      if m < cut {
        NewestIsUnique(t, low, m);
        assert (set i | i in ids - {m} && i < cut) == low - {m};
      } else {
        assert (set i | i in ids - {m} && i < cut) == low;
      }
    } else {
      assert low == {};
    }
  }

  lemma NewestIsUnique(t: Table, ids: set<nat>, i: nat)
    requires ids <= t.Keys && IsNewest(t, ids, i)
    ensures ids != {} && Newest(t, ids) == i
  {
    assert Newer(t, i, Newest(t, ids)) && Newer(t, Newest(t, ids), i);
  }

  /* ---------------- one page ---------------- */

  datatype Page = Page(events: seq<(nat, Event)>, more: bool, next: Option<nat>)

  /** A limit below one either is refused by the database or leaves no last event to point at. */
  function PageSize(limit: Option<int>): (n: int)
    ensures limit.None? || limit.value >= 1 ==> 1 <= n <= MAX_LIMIT
  {
    var asked := if limit.None? then DEFAULT_LIMIT else limit.value;
    if asked < MAX_LIMIT then asked else MAX_LIMIT
  }

  function Shown(t: Table, ids: seq<nat>, role: Role): (r: seq<(nat, Event)>)
    requires forall i | i in ids :: i in t
    ensures |r| == |ids|
  {
    seq(|ids|, k requires 0 <= k < |ids| => (ids[k], Redacted(t[ids[k]], role)))
  }

  function Cut(ids: set<nat>, before: Option<nat>): set<nat> {
    if before.None? then ids else set i | i in ids && i < before.value
  }

  /** The list call, or nothing where it fails. */
  ghost function ListEvents(t: Table, workspace: string, f: Filter, before: Option<nat>, limit: Option<int>)
    : Option<Page>
  {
    var ids := Cut(Matching(t, workspace, f), before);
    var rows := Ordered(t, ids);
    OrderedIsTheList(t, ids);
    var n := PageSize(limit);
    if n < 1 then if n == 0 && rows == [] then Some(Page([], false, None)) else None
    else if |rows| > n then Some(Page(Shown(t, rows[..n], f.role), true, Some(rows[n - 1])))
    else Some(Page(Shown(t, rows, f.role), false, None))
  }

  /* ---------------- following the cursor ---------------- */

  /** The ids that a caller collects who follows the cursor from here to the last page. */
  function Follow(rows: seq<nat>, n: nat): seq<nat>
    requires n >= 1
    decreases if |rows| > n then |rows| else 0
  {
    if |rows| <= n then rows
    else
      BelowShrinks(rows, rows[n - 1]);
      rows[..n] + Follow(Below(rows, rows[n - 1]), n)
  }

  lemma {:induction false} BelowShrinks(s: seq<nat>, cut: nat)
    requires cut in s
    ensures |Below(s, cut)| < |s|
  {
    if s[0] < cut {
      assert cut in s[1..];
      BelowShrinks(s[1..], cut);
    }
  }

  /** How many pages that takes. */
  function PageCount(rows: seq<nat>, n: nat): nat
    requires n >= 1
    decreases if |rows| > n then |rows| else 0
  {
    if |rows| <= n then 1
    else
      BelowShrinks(rows, rows[n - 1]);
      1 + PageCount(Below(rows, rows[n - 1]), n)
  }

  /** Whatever the order of ids, the caller reaches the last page after at most one page per event. */
  lemma {:induction false} FollowTerminates(rows: seq<nat>, n: nat)
    requires n >= 1
    ensures PageCount(rows, n) <= |rows| + 1
    decreases |rows|
  {
    if |rows| > n {
      BelowShrinks(rows, rows[n - 1]);
      FollowTerminates(Below(rows, rows[n - 1]), n);
    }
  }

  /** What a caller sees who starts at `before` and follows `next` until there is no more. */
  ghost function Read(t: Table, workspace: string, f: Filter, before: Option<nat>, limit: Option<int>)
    : seq<(nat, Event)>
    requires limit.None? || limit.value >= 1
    decreases |Cut(Matching(t, workspace, f), before)|
  {
    var p := ListEvents(t, workspace, f, before, limit).value;
    if p.next.None? then p.events
    else
      NextIsSmaller(t, workspace, f, before, limit);
      p.events + Read(t, workspace, f, p.next, limit)
  }

  lemma NextIsSmaller(t: Table, workspace: string, f: Filter, before: Option<nat>, limit: Option<int>)
    requires limit.None? || limit.value >= 1
    requires ListEvents(t, workspace, f, before, limit).value.next.Some?
    ensures var next := ListEvents(t, workspace, f, before, limit).value.next;
            var ids := Matching(t, workspace, f);
            next.value in Cut(ids, before) && Cut(ids, next) < Cut(ids, before)
    ensures |Cut(Matching(t, workspace, f), ListEvents(t, workspace, f, before, limit).value.next)|
         <  |Cut(Matching(t, workspace, f), before)|
  {
    var ids := Matching(t, workspace, f);
    var next := ListEvents(t, workspace, f, before, limit).value.next;
    OrderedIsTheList(t, Cut(ids, before));
    assert next.value in Cut(ids, before) && next.value !in Cut(ids, next);
    SmallerSet(Cut(ids, next), Cut(ids, before));
  }

  lemma {:induction false} SmallerSet(a: set<nat>, b: set<nat>)
    requires a < b
    ensures |a| < |b|
  {
    var x :| x in b && x !in a;
    SubsetSize(a, b - {x});
  }

  lemma {:induction false} SubsetSize(a: set<nat>, b: set<nat>)
    requires a <= b
    ensures |a| <= |b|
  {
    if a != {} {
      var x :| x in a;
      SubsetSize(a - {x}, b - {x});
    }
  }

  lemma ShownConcat(t: Table, a: seq<nat>, b: seq<nat>, role: Role)
    requires (forall i | i in a :: i in t) && (forall i | i in b :: i in t)
    ensures forall i | i in a + b :: i in t
    ensures Shown(t, a + b, role) == Shown(t, a, role) + Shown(t, b, role)
  {
  }

  /** One call in terms of the list it cuts. */
  lemma OnePage(t: Table, workspace: string, f: Filter, before: Option<nat>, limit: Option<int>)
    requires limit.None? || limit.value >= 1
    ensures var n, rows := PageSize(limit), Ordered(t, Cut(Matching(t, workspace, f), before));
            var p := ListEvents(t, workspace, f, before, limit).value;
            && (forall i | i in rows :: i in t)
            && if |rows| <= n then p.next.None? && p.events == Shown(t, rows, f.role)
               else p.next == Some(rows[n - 1]) && p.events == Shown(t, rows[..n], f.role)
  {
    OrderedIsTheList(t, Cut(Matching(t, workspace, f), before));
  }

  lemma NextPageCutsTheList(t: Table, ids: set<nat>, before: Option<nat>, next: nat)
    requires ids <= t.Keys && next in Cut(ids, before)
    ensures Ordered(t, Cut(ids, Some(next))) == Below(Ordered(t, Cut(ids, before)), next)
  {
    CursorCutsTheList(t, Cut(ids, before), next);
    assert (set i | i in Cut(ids, before) && i < next) == Cut(ids, Some(next));
  }

  /** The calls, page by page, show what following the cut list gives. */
  lemma {:induction false} ReadFollows(t: Table, workspace: string, f: Filter, before: Option<nat>, limit: Option<int>)
    requires limit.None? || limit.value >= 1
    ensures var rows := Ordered(t, Cut(Matching(t, workspace, f), before));
            && (forall i | i in Follow(rows, PageSize(limit)) :: i in t)
            && Read(t, workspace, f, before, limit) == Shown(t, Follow(rows, PageSize(limit)), f.role)
    decreases |Cut(Matching(t, workspace, f), before)|
  {
    var n, rows := PageSize(limit), Ordered(t, Cut(Matching(t, workspace, f), before));
    var p := ListEvents(t, workspace, f, before, limit).value;
    OnePage(t, workspace, f, before, limit);
    if p.next.Some? {
      NextIsSmaller(t, workspace, f, before, limit);
      NextPageCutsTheList(t, Matching(t, workspace, f), before, p.next.value);
      ReadFollows(t, workspace, f, p.next, limit);
      ShownConcat(t, rows[..n], Follow(Below(rows, rows[n - 1]), n), f.role);
    }
  }

  /* ---------------- when the pages add up ---------------- */

  /** At this cut every id before it is at least the cursor and every id after it is below. */
  predicate CutAgrees(rows: seq<nat>, k: nat)
    requires 1 <= k <= |rows|
  {
    && (forall i | 0 <= i < k :: rows[i] >= rows[k - 1])
    && (forall i | k <= i < |rows| :: rows[i] < rows[k - 1])
  }

  predicate CutsAgree(rows: seq<nat>, n: nat)
    requires n >= 1
    decreases |rows|
  {
    |rows| <= n || (CutAgrees(rows, n) && CutsAgree(rows[n..], n))
  }

  lemma {:induction false} BelowConcat(a: seq<nat>, b: seq<nat>, cut: nat)
    ensures Below(a + b, cut) == Below(a, cut) + Below(b, cut)
  {
    if a == [] {
      assert a + b == b;
    } else {
      assert (a + b)[1..] == a[1..] + b;
      BelowConcat(a[1..], b, cut);
    }
  }

  lemma {:induction false} BelowAll(s: seq<nat>, cut: nat)
    ensures (forall i | 0 <= i < |s| :: s[i] < cut) ==> Below(s, cut) == s
    ensures (forall i | 0 <= i < |s| :: s[i] >= cut) ==> Below(s, cut) == []
  {
    if s != [] {
      BelowAll(s[1..], cut);
    }
  }

  lemma AgreeingCutIsTheRest(rows: seq<nat>, n: nat)
    requires 1 <= n < |rows| && CutAgrees(rows, n)
    ensures Below(rows, rows[n - 1]) == rows[n..]
  {
    assert rows == rows[..n] + rows[n..];
    BelowConcat(rows[..n], rows[n..], rows[n - 1]);
    BelowAll(rows[..n], rows[n - 1]);
    BelowAll(rows[n..], rows[n - 1]);
  }

  lemma FollowStarts(rows: seq<nat>, n: nat)
    requires n >= 1 && rows != []
    ensures Follow(rows, n) != [] && Follow(rows, n)[0] == rows[0]
  {
  }

  /** A page that brings back an earlier id makes the next page start with it. */
  lemma FirstOfNextPage(rows: seq<nat>, n: nat, i: nat)
    requires 1 <= n < |rows| && i < n && rows[i] < rows[n - 1]
    requires forall j, k | 0 <= j < k < |rows| :: rows[j] != rows[k]
    ensures Below(rows, rows[n - 1]) != [] && Below(rows, rows[n - 1])[0] in rows[..n]
  {
    assert rows == rows[..n] + rows[n..];
    BelowConcat(rows[..n], rows[n..], rows[n - 1]);
    assert rows[i] in rows[..n] && rows[i] in Below(rows[..n], rows[n - 1]);
    assert Below(rows[..n], rows[n - 1])[0] in Below(rows[..n], rows[n - 1]);
  }

  /** The pages joined together are the list exactly when the ids agree with the order at every cut. */
  lemma {:induction false} PagesAddUpExactly(rows: seq<nat>, n: nat)
    requires n >= 1 && forall j, k | 0 <= j < k < |rows| :: rows[j] != rows[k]
    ensures Follow(rows, n) == rows <==> CutsAgree(rows, n)
    decreases |rows|
  {
    if |rows| > n {
      var rest := Below(rows, rows[n - 1]);
      assert rows == rows[..n] + rows[n..];
      if CutAgrees(rows, n) {
        AgreeingCutIsTheRest(rows, n);
        PagesAddUpExactly(rows[n..], n);
        assert Follow(rows, n) == rows[..n] + Follow(rows[n..], n);
        assert Follow(rows, n)[n..] == Follow(rows[n..], n);
      } else if Follow(rows, n) == rows {
        assert Follow(rows, n)[n..] == Follow(rest, n);
        DisagreeingCutShows(rows, n);
        assert false;
      }
    }
  }

  lemma DisagreeingCutShows(rows: seq<nat>, n: nat)
    requires 1 <= n < |rows| && forall j, k | 0 <= j < k < |rows| :: rows[j] != rows[k]
    requires !CutAgrees(rows, n)
    ensures Follow(Below(rows, rows[n - 1]), n) != rows[n..]
  {
    var cut := rows[n - 1];
    var rest := Below(rows, cut);
    if i :| 0 <= i < n && rows[i] < cut {
      FirstOfNextPage(rows, n, i);
      FollowStarts(rest, n);
      assert rows[n..][0] == rows[n] && forall k | 0 <= k < n :: rows[..n][k] != rows[n];
    } else {
      var i :| n <= i < |rows| && rows[i] >= cut;
      FollowIsBelow(rest, n, cut);
      assert rows[n..][i - n] == rows[i] && rows[i] in rows[n..];
    }
  }

  lemma {:induction false} FollowIsBelow(rows: seq<nat>, n: nat, cut: nat)
    requires n >= 1 && forall i | i in rows :: i < cut
    ensures forall i | i in Follow(rows, n) :: i < cut
    decreases |rows|
  {
    if |rows| > n {
      BelowShrinks(rows, rows[n - 1]);
      FollowIsBelow(Below(rows, rows[n - 1]), n, cut);
      var next := Follow(Below(rows, rows[n - 1]), n);
      assert Follow(rows, n) == rows[..n] + next;
      assert forall i | i in rows[..n] :: i in rows;
      assert forall i | i in rows[..n] + next :: i in rows[..n] || i in next;
    }
  }

  /* ---------------- main results about the calls ---------------- */

  lemma ShownTellsIds(t: Table, a: seq<nat>, b: seq<nat>, role: Role)
    requires (forall i | i in a :: i in t) && (forall i | i in b :: i in t) && Shown(t, a, role) == Shown(t, b, role)
    ensures a == b
  {
    forall k | 0 <= k < |a| ensures a[k] == b[k] {
      assert Shown(t, a, role)[k] == Shown(t, b, role)[k];
      assert Shown(t, a, role)[k].0 == a[k] && Shown(t, b, role)[k].0 == b[k];
    }
  }

  /**
   On a table that does not change, reading all pages gives the filtered events in order, each once,
   exactly when at every cut the ids before it are at least the cursor and those after it are below.
   */
  lemma PagesAreTheListExactly(t: Table, workspace: string, f: Filter, limit: Option<int>)
    requires limit.None? || limit.value >= 1
    ensures var rows := Ordered(t, Matching(t, workspace, f));
            && (forall i | i in rows :: i in t)
            && (Read(t, workspace, f, None, limit) == Shown(t, rows, f.role) <==> CutsAgree(rows, PageSize(limit)))
  {
    var rows, n := Ordered(t, Matching(t, workspace, f)), PageSize(limit);
    OrderedIsTheList(t, Matching(t, workspace, f));
    ReadFollows(t, workspace, f, None, limit);
    PagesAddUpExactly(rows, n);
    if Read(t, workspace, f, None, limit) == Shown(t, rows, f.role) {
      ShownTellsIds(t, Follow(rows, n), rows, f.role);
    }
  }

  /** Later events have later ids. */
  ghost predicate IdsFollowTime(t: Table, ids: set<nat>)
    requires ids <= t.Keys
  {
    forall i, j | i in ids && j in ids && t[i].occurred > t[j].occurred :: i > j
  }

  lemma {:induction false} DescendingCutsAgree(rows: seq<nat>, n: nat)
    requires n >= 1 && forall j, k | 0 <= j < k < |rows| :: rows[j] > rows[k]
    ensures CutsAgree(rows, n)
    decreases |rows|
  {
    if |rows| > n {
      DescendingCutsAgree(rows[n..], n);
    }
  }

  /**
   On a table that does not change and where ids follow time, following the cursor from the first page
   with any limit of at least one gives exactly the filtered events, in order, each once.
   */
  lemma PagesAreTheFilteredEvents(t: Table, workspace: string, f: Filter, limit: Option<int>)
    requires limit.None? || limit.value >= 1
    requires IdsFollowTime(t, Matching(t, workspace, f))
    ensures var rows := Ordered(t, Matching(t, workspace, f));
            && (forall i | i in rows :: i in t)
            && Read(t, workspace, f, None, limit) == Shown(t, rows, f.role)
            && |rows| == |Matching(t, workspace, f)| && InOrder(t, rows)
  {
    var ids, n := Matching(t, workspace, f), PageSize(limit);
    var rows := Ordered(t, ids);
    OrderedIsTheList(t, ids);
    assert forall j, k | 0 <= j < k < |rows| :: rows[j] > rows[k];
    DescendingCutsAgree(rows, n);
    PagesAreTheListExactly(t, workspace, f, limit);
  }

  /**
   With page size one the pages add up exactly when ids follow time, so a table that breaks the
   agreement anywhere has a limit that loses or repeats events.
   */
  lemma SmallestPageNeedsTheOrder(t: Table, ids: set<nat>)
    requires ids <= t.Keys
    ensures Follow(Ordered(t, ids), 1) == Ordered(t, ids) <==> IdsFollowTime(t, ids)
  {
    var rows := Ordered(t, ids);
    OrderedIsTheList(t, ids);
    PagesAddUpExactly(rows, 1);
    if IdsFollowTime(t, ids) {
      assert forall j, k | 0 <= j < k < |rows| :: rows[j] > rows[k];
      DescendingCutsAgree(rows, 1);
    }
    if CutsAgree(rows, 1) {
      UnitCutsDescend(rows);
      DescendingMeansIdsFollowTime(t, ids, rows);
    }
  }

  lemma DescendingMeansIdsFollowTime(t: Table, ids: set<nat>, rows: seq<nat>)
    requires ids <= t.Keys && InOrder(t, rows) && forall i | i in ids :: i in rows
    requires forall j, k | 0 <= j < k < |rows| :: rows[j] > rows[k]
    ensures IdsFollowTime(t, ids)
  {
    assert forall a, b | 0 <= a < b < |rows| :: Newer(t, rows[a], rows[b]);
    forall i, j | i in ids && j in ids && t[i].occurred > t[j].occurred ensures i > j {
      var a :| 0 <= a < |rows| && rows[a] == i;
      var b :| 0 <= b < |rows| && rows[b] == j;
    }
  }

  /** Two events of one workspace whose ids run against time. */
  const OLDER := Event("w", None, "xlooop", None, "s", None, Queued, None, None, PublicSafe, None, None, 1, None)

  const NEWER := OLDER.(occurred := 2)

  const AGAINST_TIME: Table := map[1 := NEWER, 2 := OLDER]

  const ANY := Filter(Client, None, None, None, None, false, false)

  lemma BothMatch()
    ensures Matching(AGAINST_TIME, "w", ANY) == {1, 2}
  {
    assert Matches(NEWER, "w", ANY) && Matches(OLDER, "w", ANY);
  }

  lemma BothInOrder()
    ensures Ordered(AGAINST_TIME, {1, 2}) == [1, 2]
  {
    NewestIsUnique(AGAINST_TIME, {1, 2}, 1);
    assert {1, 2} - {1} == {2};
    NewestIsUnique(AGAINST_TIME, {2}, 2);
    assert {2} - {2} == {};
    assert Ordered(AGAINST_TIME, {2}) == [2];
  }

  lemma OneIsFollowed()
    ensures Follow([1, 2], 1) == [1]
  {
    assert [1, 2][1..] == [2] && Below([2], 1) == [];
    assert Below([1, 2], 1) == [];
  }

  /** Read one at a time, the older of the two is lost. */
  lemma IdsAgainstTimeLoseAnEvent()
    ensures Matching(AGAINST_TIME, "w", ANY) == {1, 2} && Ordered(AGAINST_TIME, {1, 2}) == [1, 2]
    ensures Read(AGAINST_TIME, "w", ANY, None, Some(1)) == [(1, NEWER.(principal := None))]
  {
    BothMatch();
    BothInOrder();
    OneIsFollowed();
    ReadFollows(AGAINST_TIME, "w", ANY, None, Some(1));
  }

  lemma {:induction false} UnitCutsDescend(rows: seq<nat>)
    requires CutsAgree(rows, 1)
    ensures forall j, k | 0 <= j < k < |rows| :: rows[j] > rows[k]
    decreases |rows|
  {
    if |rows| > 1 {
      UnitCutsDescend(rows[1..]);
      forall j, k | 0 <= j < k < |rows| ensures rows[j] > rows[k] {
        if j > 0 {
          assert rows[1..][j - 1] > rows[1..][k - 1];
        }
      }
    }
  }
}
