/** What the Current Work projection counts and puts first, by status and lifecycle. */
module CurrentWorkEffects {
  import opened Wrappers
  import opened Counting
  import opened Events
  import opened CurrentWork
  import EventEffects

  /** A top-level event that the list would show this role, in the project asked for or in none. */
  predicate EventCounts(db: Db, v: View, i: nat) {
    && i in db.events
    && EventEffects.Asked(db.events[i], v.workspace, Filter(v.role, None, None, None, None, true, false))
    && (v.project == None || db.events[i].project == v.project || db.events[i].project == None)
  }

  /** A counted event is the packet's own, or a governed receipt of the packet names it. */
  ghost predicate CountedThrough(db: Db, v: View, p: nat) {
    && p in db.packets
    && exists e: nat :: EventCounts(db, v, e)
         && (db.packets[p].event == Some(e) || Receipt(db.packets[p].workspace, Some(p), Some(e)) in db.receipts)
  }

  ghost predicate PacketCounts(db: Db, v: View, p: nat) {
    && p in db.packets && db.packets[p].workspace == v.workspace && db.packets[p].lifecycle != PacketArchived
    && (v.project == None || db.packets[p].project == v.project || db.packets[p].project == None)
    && !CountedThrough(db, v, p)
  }

  lemma EventCountsExactly(db: Db, v: View)
    ensures forall i: nat :: i in VisibleEvents(db, v) <==> EventCounts(db, v, i)
  {
    forall i: nat | i in db.events ensures i in VisibleEvents(db, v) <==> EventCounts(db, v, i) {
      EventEffects.RolesSee(v.role, db.events[i].visibility);
    }
  }

  lemma PacketCountsExactly(db: Db, v: View)
    ensures forall p: nat :: p in OwnPackets(db, v) <==> PacketCounts(db, v, p)
  {
    EventCountsExactly(db, v);
    forall p: nat | p in db.packets ensures Represented(db, v, p) <==> CountedThrough(db, v, p) {
      if e :| e in VisibleEvents(db, v) && StandsFor(db, v, e, p) {
        assert EventCounts(db, v, e);
      }
      if CountedThrough(db, v, p) {
        var e: nat :| EventCounts(db, v, e)
          && (db.packets[p].event == Some(e) || Receipt(db.packets[p].workspace, Some(p), Some(e)) in db.receipts);
        assert e in VisibleEvents(db, v) && StandsFor(db, v, e, p);
      }
    }
  }

  predicate Waiting(e: Event) { e.status == NeedsReview && e.approval != Some(ApprovalGiven) }

  /** Which state an event and a packet stand in. */
  lemma StatesExactly(e: Event, p: Packet)
    ensures EventState(e) == ForReview <==> Waiting(e)
    ensures EventState(e) == IsBlocked <==> e.status == Blocked
    ensures EventState(e) == Done <==> e.status == Completed || e.status == Approved
    ensures PacketState(p) == ForReview <==> p.lifecycle == ApprovalRequested
    ensures PacketState(p) == IsBlocked <==> p.lifecycle == PacketRejected
    ensures PacketState(p) == Done <==> p.lifecycle == PacketApproved || p.lifecycle == PacketCompleted
  {
  }

  function PacketsInState(db: Db, v: View, s: State): set<nat> {
    set p | p in OwnPackets(db, v) && PacketState(db.packets[p]) == s
  }

  lemma PacketStateCount(db: Db, v: View, s: State)
    ensures |InState(PacketItems(db, v), s)| == |PacketsInState(db, v, s)|
  {
    var m := map i | i in PacketsInState(db, v, s) :: PacketRow(db, i);
    assert m.Keys == PacketsInState(db, v, s);
    forall x ensures x in InState(PacketItems(db, v), s) <==> x in m.Values {
      if x in InState(PacketItems(db, v), s) {
        var i :| i in OwnPackets(db, v) && PacketRow(db, i) == x;
        assert m[i] == x;
      }
    }
    BijectionKeepsSize(m, InState(PacketItems(db, v), s));
  }

  lemma StateCountSplits(db: Db, v: View, s: State)
    ensures |InState(Items(db, v), s)| == |EventsInState(db, v, s)| + |PacketsInState(db, v, s)|
  {
    StateCount(db, v, s);
    PacketStateCount(db, v, s);
    var a, b := InState(EventItems(db, v), s), InState(PacketItems(db, v), s);
    assert InState(Items(db, v), s) == a + b && a !! b;
  }

  function Those<T>(rows: map<nat, T>, ids: set<nat>, wanted: T -> bool): set<nat> {
    set i | i in ids && i in rows && wanted(rows[i])
  }

  /** The projected counts: events by status and packets of their own by lifecycle, each once. */
  lemma CountsExactly(db: Db, v: View, r: Projection, events: set<nat>, packets: set<nat>)
    requires IsProjection(db, v, r)
    requires forall i: nat :: i in events <==> EventCounts(db, v, i)
    requires forall p: nat :: p in packets <==> PacketCounts(db, v, p)
    ensures var c := r.counts;
            && c.needsYou == |Those(db.events, events, Waiting)|
                             + |Those(db.packets, packets, (p: Packet) => p.lifecycle == ApprovalRequested)|
            && c.blocked == |Those(db.events, events, (e: Event) => e.status == Blocked)|
                            + |Those(db.packets, packets, (p: Packet) => p.lifecycle == PacketRejected)|
            && c.done == |Those(db.events, events, (e: Event) => e.status == Completed || e.status == Approved)|
                         + |Those(db.packets, packets,
                                  (p: Packet) => p.lifecycle == PacketApproved || p.lifecycle == PacketCompleted)|
            && c.total == |events| + |packets|
  {
    EventCountsExactly(db, v);
    PacketCountsExactly(db, v);
    assert events == VisibleEvents(db, v) && packets == OwnPackets(db, v);
    TotalCountsEachOnce(db, v);
    StateCountSplits(db, v, ForReview);
    StateCountSplits(db, v, IsBlocked);
    StateCountSplits(db, v, Done);
    EventSetsByStatus(db, v);
    PacketSetsByLifecycle(db, v);
  }

  lemma EventSetsByStatus(db: Db, v: View)
    ensures var all := VisibleEvents(db, v);
            && EventsInState(db, v, ForReview) == Those(db.events, all, Waiting)
            && EventsInState(db, v, IsBlocked) == Those(db.events, all, (e: Event) => e.status == Blocked)
            && EventsInState(db, v, Done)
               == Those(db.events, all, (e: Event) => e.status == Completed || e.status == Approved)
  {
  }

  lemma PacketSetsByLifecycle(db: Db, v: View)
    ensures var all := OwnPackets(db, v);
            && PacketsInState(db, v, ForReview)
               == Those(db.packets, all, (p: Packet) => p.lifecycle == ApprovalRequested)
            && PacketsInState(db, v, IsBlocked) == Those(db.packets, all, (p: Packet) => p.lifecycle == PacketRejected)
            && PacketsInState(db, v, Done)
               == Those(db.packets, all,
                        (p: Packet) => p.lifecycle == PacketApproved || p.lifecycle == PacketCompleted)
  {
  }

  /** The item an event or a packet gives. */
  lemma RowsExactly(db: Db, i: nat)
    ensures i in db.events ==>
              var e, x := db.events[i], EventRow(db, i);
              x == Item(EventItem, i, e.project, e.intent, e.summary, EventState(e), e.occurred)
    ensures i in db.packets ==>
              var p, x := db.packets[i], PacketRow(db, i);
              x == Item(PacketItem, i, p.project, None, p.title, PacketState(p), p.updated)
  {
  }

  /** The focus: something for review before anything blocked, then the latest, then the last in id. */
  lemma FocusComesFirst(db: Db, v: View, r: Projection)
    requires IsProjection(db, v, r) && r.focus.Some?
    ensures var f, items := r.focus.value, Items(db, v);
            && f in items && (f.state == ForReview || f.state == IsBlocked)
            && (f.state == IsBlocked ==> forall x | x in items :: x.state != ForReview)
            && (forall x | x in items && x.state == f.state ::
                  x.updated < f.updated || (x.updated == f.updated && x.id <= f.id))
    ensures var items := Items(db, v);
            && (r.watermark.None? <==> items == {})
            && (r.watermark.Some? ==> (exists x :: x in items && x.updated == r.watermark.value)
                                      && forall x | x in items :: x.updated <= r.watermark.value)
  {
    var f, items := r.focus.value, Items(db, v);
    forall x | x in items && (x.state == ForReview || x.state == IsBlocked) ensures Before(f, x) {
      assert x in Attention(items);
    }
  }
}
