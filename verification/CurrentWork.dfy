/**
 The Current Work projection: visible top-level events and the task packets that no visible event
 stands for, counted over the whole workspace, with the one item to attend to first.
 */
module CurrentWork {
  import opened Wrappers
  import opened Events
  import opened Counting

  datatype Lifecycle = Draft | Ready | InProgress | EvidenceReady | ApprovalRequested | PacketApproved | PacketRejected
                     | PacketCompleted | PacketArchived

  datatype Packet = Packet(workspace: string, project: Option<string>, event: Option<nat>, title: string,
                           lifecycle: Lifecycle, updated: int)

  /** A governed execution receipt, of a task packet unless `target` is none. */
  datatype Receipt = Receipt(workspace: string, target: Option<nat>, event: Option<nat>)

  datatype Db = Db(events: Table, packets: map<nat, Packet>, receipts: set<Receipt>)

  datatype View = View(workspace: string, role: Role, project: Option<string>)

  datatype State = ForReview | IsBlocked | Done | InWork

  datatype Kind = EventItem | PacketItem

  datatype Item = Item(kind: Kind, id: nat, project: Option<string>, intent: Option<string>, title: string,
                       state: State, updated: int)

  /* ---------------- the items ---------------- */

  predicate InProject(project: Option<string>, v: View) {
    v.project.None? || project == v.project || project.None?
  }

  predicate EventInView(e: Event, v: View) {
    Visible(e, v.workspace, v.role) && e.parent.None? && InProject(e.project, v)
  }

  function VisibleEvents(db: Db, v: View): set<nat> {
    set i | i in db.events && EventInView(db.events[i], v)
  }

  function EventState(e: Event): State {
    if NeedsYou(e) then ForReview
    else if e.status == Blocked then IsBlocked
    else if e.status in {Completed, Approved} then Done
    else InWork
  }

  function PacketState(p: Packet): State {
    match p.lifecycle
    case ApprovalRequested => ForReview
    case PacketRejected => IsBlocked
    case PacketApproved => Done
    case PacketCompleted => Done
    case _ => InWork
  }

  predicate PacketInView(p: Packet, v: View) {
    p.workspace == v.workspace && p.lifecycle != PacketArchived && InProject(p.project, v)
  }

  /** A visible event stands for the packet, by its event column or by a governed receipt. */
  predicate StandsFor(db: Db, v: View, e: nat, p: nat)
    requires p in db.packets
  {
    && e in VisibleEvents(db, v)
    && (db.packets[p].event == Some(e) || Receipt(db.packets[p].workspace, Some(p), Some(e)) in db.receipts)
  }

  predicate Represented(db: Db, v: View, p: nat)
    requires p in db.packets
  {
    exists e | e in VisibleEvents(db, v) :: StandsFor(db, v, e, p)
  }

  function EventRow(db: Db, i: nat): Item
    requires i in db.events
  {
    var e := db.events[i];
    Item(EventItem, i, e.project, e.intent, e.summary, EventState(e), e.occurred)
  }

  function PacketRow(db: Db, i: nat): Item
    requires i in db.packets
  {
    var p := db.packets[i];
    Item(PacketItem, i, p.project, None, p.title, PacketState(p), p.updated)
  }

  function OwnPackets(db: Db, v: View): set<nat> {
    set i | i in db.packets && PacketInView(db.packets[i], v) && !Represented(db, v, i)
  }

  function EventItems(db: Db, v: View): set<Item> {
    set i | i in VisibleEvents(db, v) :: EventRow(db, i)
  }

  function PacketItems(db: Db, v: View): set<Item> {
    set i | i in OwnPackets(db, v) :: PacketRow(db, i)
  }

  function Items(db: Db, v: View): set<Item> { EventItems(db, v) + PacketItems(db, v) }

  /* ---------------- counts and focus ---------------- */

  datatype Counts = Counts(needsYou: nat, blocked: nat, done: nat, total: nat)

  function InState(items: set<Item>, s: State): set<Item> { set x | x in items && x.state == s }

  function CountItems(items: set<Item>): Counts {
    Counts(|InState(items, ForReview)|, |InState(items, IsBlocked)|, |InState(items, Done)|, |items|)
  }

  /** The aggregate over events alone. */
  function CountEventStates(db: Db, v: View): Counts {
    var all := VisibleEvents(db, v);
    Counts(
      |set i | i in all && NeedsYou(db.events[i])|,
      |set i | i in all && db.events[i].status == Blocked|,
      |set i | i in all && db.events[i].status in {Completed, Approved}|,
      |all|)
  }

  function Attention(items: set<Item>): set<Item> { InState(items, ForReview) + InState(items, IsBlocked) }

  function Rank(s: State): int { if s == ForReview then 0 else 1 }

  predicate Before(a: Item, b: Item) {
    || Rank(a.state) < Rank(b.state)
    || (Rank(a.state) == Rank(b.state) && (a.updated > b.updated || (a.updated == b.updated && a.id >= b.id)))
  }

  ghost predicate IsFirst(items: set<Item>, f: Item) {
    f in Attention(items) && forall x | x in Attention(items) :: Before(f, x)
  }

  datatype Projection = Projection(counts: Counts, focus: Option<Item>, watermark: Option<int>)

  ghost predicate IsLatest(items: set<Item>, w: Option<int>) {
    match w
    case None => items == {}
    case Some(u) => (exists x :: x in items && x.updated == u) && forall x | x in items :: x.updated <= u
  }

  /**
   What the query may answer; an event and a packet alike in state, time and id leave it a choice.
   A first item without a title is answered as no focus.
   */
  ghost predicate IsProjection(db: Db, v: View, r: Projection) {
    var items := Items(db, v);
    && r.counts == CountItems(items) && IsLatest(items, r.watermark)
    && if Attention(items) == {} then r.focus.None?
       else exists f :: IsFirst(items, f) && r.focus == (if f.title == "" then None else Some(f))
  }

  /* ---------------- theorems ---------------- */

  /** Needs-you, blocked, done and the rest share out the total: no item in two, none in neither. */
  lemma CountsPartition(db: Db, v: View)
    ensures var items, c := Items(db, v), CountItems(Items(db, v));
            c.needsYou + c.blocked + c.done + |InState(items, InWork)| == c.total
  {
    StatesPartition(Items(db, v));
  }

  lemma StatesPartition(items: set<Item>)
    ensures |InState(items, ForReview)| + |InState(items, IsBlocked)| + |InState(items, Done)|
            + |InState(items, InWork)| == |items|
  {
    var a, b := InState(items, ForReview), InState(items, IsBlocked);
    var c, d := InState(items, Done), InState(items, InWork);
    assert items == a + b + c + d;
    FourParts(a, b, c, d);
  }

  lemma FourParts(a: set<Item>, b: set<Item>, c: set<Item>, d: set<Item>)
    requires a !! b && a !! c && a !! d && b !! c && b !! d && c !! d
    ensures |a + b + c + d| == |a| + |b| + |c| + |d|
  {
  }

  /** The total is one per visible event and one per packet that no visible event stands for. */
  lemma TotalCountsEachOnce(db: Db, v: View)
    ensures CountItems(Items(db, v)).total == |VisibleEvents(db, v)| + |OwnPackets(db, v)|
  {
    EventItemsSize(db, v);
    PacketItemsSize(db, v);
    assert EventItems(db, v) !! PacketItems(db, v);
  }

  lemma EventItemsSize(db: Db, v: View)
    ensures |EventItems(db, v)| == |VisibleEvents(db, v)|
  {
    var m := map i | i in VisibleEvents(db, v) :: EventRow(db, i);
    assert m.Keys == VisibleEvents(db, v);
    BijectionKeepsSize(m, EventItems(db, v));
  }

  lemma PacketItemsSize(db: Db, v: View)
    ensures |PacketItems(db, v)| == |OwnPackets(db, v)|
  {
    var m := map i | i in OwnPackets(db, v) :: PacketRow(db, i);
    assert m.Keys == OwnPackets(db, v);
    BijectionKeepsSize(m, PacketItems(db, v));
  }

  /** Every non-archived packet in scope is there exactly once: as itself, or through an event that is. */
  lemma EveryPacketCountsOnce(db: Db, v: View, p: nat)
    requires p in db.packets && PacketInView(db.packets[p], v)
    ensures (PacketRow(db, p) in Items(db, v))
            != (exists e :: StandsFor(db, v, e, p) && EventRow(db, e) in Items(db, v))
    ensures forall x | x in Items(db, v) && x.kind == PacketItem && x.id == p :: x == PacketRow(db, p)
  {
    if Represented(db, v, p) {
      var e :| e in VisibleEvents(db, v) && StandsFor(db, v, e, p);
      assert EventRow(db, e) in EventItems(db, v);
      assert PacketRow(db, p) !in PacketItems(db, v);
    } else {
      assert p in OwnPackets(db, v);
      assert PacketRow(db, p) in PacketItems(db, v);
    }
  }

  /** Packets out of scope or archived are never counted. */
  lemma OnlyPacketsInScope(db: Db, v: View, x: Item)
    requires x in Items(db, v) && x.kind == PacketItem
    ensures x.id in db.packets && PacketInView(db.packets[x.id], v) && !Represented(db, v, x.id)
  {
  }

  /** Without packets the projection counts what the event aggregate counts. */
  lemma NoPacketsMeansEventCounts(db: Db, v: View)
    requires db.packets == map[]
    ensures CountItems(Items(db, v)) == CountEventStates(db, v)
  {
    assert OwnPackets(db, v) == {} && PacketItems(db, v) == {};
    assert Items(db, v) == EventItems(db, v);
    EventItemsSize(db, v);
    StateCount(db, v, ForReview);
    StateCount(db, v, IsBlocked);
    StateCount(db, v, Done);
    StatesAreTheAggregates(db, v);
  }

  function EventsInState(db: Db, v: View, s: State): set<nat> {
    set i | i in VisibleEvents(db, v) && EventState(db.events[i]) == s
  }

  lemma StatesAreTheAggregates(db: Db, v: View)
    ensures var all := VisibleEvents(db, v);
            && EventsInState(db, v, ForReview) == (set i | i in all && NeedsYou(db.events[i]))
            && EventsInState(db, v, IsBlocked) == (set i | i in all && db.events[i].status == Blocked)
            && EventsInState(db, v, Done) == (set i | i in all && db.events[i].status in {Completed, Approved})
  {
  }

  lemma StateCount(db: Db, v: View, s: State)
    ensures |InState(EventItems(db, v), s)| == |EventsInState(db, v, s)|
  {
    var m := map i | i in EventsInState(db, v, s) :: EventRow(db, i);
    assert m.Keys == EventsInState(db, v, s);
    forall x ensures x in InState(EventItems(db, v), s) <==> x in m.Values {
      if x in InState(EventItems(db, v), s) {
        var i :| i in VisibleEvents(db, v) && EventRow(db, i) == x;
        assert m[i] == x;
      }
    }
    BijectionKeepsSize(m, InState(EventItems(db, v), s));
  }

  /** With titles there, the focus is missing exactly when nothing waits, and otherwise is the first. */
  lemma FocusExactly(db: Db, v: View, r: Projection)
    requires IsProjection(db, v, r) && forall x | x in Items(db, v) :: x.title != ""
    ensures r.focus.None? <==> r.counts.needsYou + r.counts.blocked == 0
    ensures r.focus.Some? ==> IsFirst(Items(db, v), r.focus.value)
  {
    var items := Items(db, v);
    if Attention(items) == {} {
      assert InState(items, ForReview) == {} && InState(items, IsBlocked) == {};
    } else {
      var x :| x in Attention(items);
      assert x in InState(items, ForReview) || x in InState(items, IsBlocked);
    }
  }

  /** Without that premise a waiting item can be hidden: exactly when a first one has no title. */
  lemma HiddenFocusExactly(db: Db, v: View)
    ensures (exists r :: IsProjection(db, v, r) && r.focus.None? && r.counts.needsYou + r.counts.blocked > 0)
            <==> exists f :: IsFirst(Items(db, v), f) && f.title == ""
  {
    var items := Items(db, v);
    if r :| IsProjection(db, v, r) && r.focus.None? && r.counts.needsYou + r.counts.blocked > 0 {
      SomeoneWaits(items);
      var f :| IsFirst(items, f) && r.focus == (if f.title == "" then None else Some(f));
      assert f.title == "";
    }
    if f :| IsFirst(items, f) && f.title == "" {
      LatestExists(items);
      var w :| IsLatest(items, w);
      var r := Projection(CountItems(items), None, w);
      SomeoneWaits(items);
      assert IsProjection(db, v, r);
    }
  }

  /** One event in review with an empty summary: it waits, and no focus is shown. */
  lemma UntitledEventIsHidden()
    ensures var e := Event("w", None, "xlooop", None, "", None, NeedsReview, None, None, PublicSafe, None, None,
                           5, None);
            var db := Db(map[1 := e], map[], {});
            IsProjection(db, View("w", Client, None), Projection(Counts(1, 0, 0, 1), None, Some(5)))
  {
    var e := Event("w", None, "xlooop", None, "", None, NeedsReview, None, None, PublicSafe, None, None, 5, None);
    var db, v := Db(map[1 := e], map[], {}), View("w", Client, None);
    var x := EventRow(db, 1);
    assert VisibleEvents(db, v) == {1} && OwnPackets(db, v) == {};
    assert EventItems(db, v) == {x} && PacketItems(db, v) == {} && Items(db, v) == {x};
    assert InState({x}, ForReview) == {x} && InState({x}, IsBlocked) == {} && InState({x}, Done) == {};
    assert x in Attention({x}) && IsFirst({x}, x) && IsLatest({x}, Some(5));
  }

  lemma SomeoneWaits(items: set<Item>)
    ensures Attention(items) != {} <==> CountItems(items).needsYou + CountItems(items).blocked > 0
  {
    if Attention(items) != {} {
      var x :| x in Attention(items);
      assert x in InState(items, ForReview) || x in InState(items, IsBlocked);
    } else {
      assert InState(items, ForReview) == {} && InState(items, IsBlocked) == {};
    }
  }

  lemma {:induction false} LatestExists(items: set<Item>)
    ensures exists w :: IsLatest(items, w)
  {
    if items == {} {
      assert IsLatest(items, None);
    } else {
      var x :| x in items;
      LatestExists(items - {x});
      var w :| IsLatest(items - {x}, w);
      var u := if w.None? || w.value < x.updated then x.updated else w.value;
      assert IsLatest(items, Some(u)) by {
        forall y | y in items ensures y.updated <= u {
          assert y == x || y in items - {x};
        }
        if u == x.updated {
          assert x in items;
        } else {
          var y :| y in items - {x} && y.updated == u;
          assert y in items;
        }
      }
    }
  }

  /** The query always has an answer. */
  lemma ProjectionExists(db: Db, v: View)
    ensures exists r :: IsProjection(db, v, r)
  {
    var items := Items(db, v);
    LatestExists(items);
    var w :| IsLatest(items, w);
    if Attention(items) == {} {
      assert IsProjection(db, v, Projection(CountItems(items), None, w));
    } else {
      FirstExists(Attention(items));
      var f :| f in Attention(items) && forall x | x in Attention(items) :: Before(f, x);
      assert IsFirst(items, f);
      assert IsProjection(db, v, Projection(CountItems(items), if f.title == "" then None else Some(f), w));
    }
  }

  lemma {:induction false} FirstExists(s: set<Item>)
    requires s != {}
    ensures exists f :: f in s && forall x | x in s :: Before(f, x)
  {
    var y :| y in s;
    if s == {y} {
      assert Before(y, y);
    } else {
      FirstExists(s - {y});
      var g :| g in s - {y} && forall x | x in s - {y} :: Before(g, x);
      var f := if Before(y, g) then y else g;
      forall x | x in s ensures Before(f, x) {
        assert x == y || Before(g, x);
      }
    }
  }
}
