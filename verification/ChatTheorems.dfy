/** What holds of chat threads, messages and answer receipts over every run. */
module ChatTheorems {
  import opened Wrappers
  import opened Text
  import opened ChatScope
  import opened ChatStore

  /* ---------------- writing entries ---------------- */

  /** Every stored message under this entry's key has this entry's content. */
  ghost predicate NoClash(db: Db, thread: string, e: Entry) {
    forall i | i in db.messages && EntryMatch(db.messages[i], thread, e) :: Repeats(db.messages[i], e)
  }

  lemma NoConflictMeansNoClash(db: Db, thread: string, e: Entry)
    requires UniqueEntries(db)
    ensures Conflicts(db, thread, e) <==> !NoClash(db, thread, e)
  {
  }

  /** Message `id` is what this entry asked for. */
  ghost predicate Records(db: Db, thread: string, e: Entry, id: Option<nat>) {
    && id.Some? && id.value in db.messages
    && var m := db.messages[id.value];
       m.thread == thread && m.interaction == e.interaction && m.entryType == e.entryType && Repeats(m, e)
  }

  ghost predicate Extends(a: Db, b: Db) {
    && a.threads == b.threads
    && (forall i | i in a.messages :: i in b.messages && b.messages[i] == a.messages[i])
    && (forall i | i in a.audits :: i in b.audits && b.audits[i] == a.audits[i])
  }

  ghost predicate OnlyInto(a: Db, b: Db, thread: string) {
    forall i | i in b.messages && i !in a.messages :: b.messages[i].thread == thread
  }

  /** The caller's own active thread is there. */
  ghost predicate Ready(db: Db, x: Exchange) {
    ThreadId(x) in db.threads && OwnedBy(db.threads[ThreadId(x)], x.user, x.scope) && !db.threads[ThreadId(x)].archived
  }

  lemma RecognisedEntryChangesNothing(db: Db, x: Exchange, e: Entry, id: Option<nat>)
    requires Inv(db) && Ready(db, x) && Keyed(e) && Records(db, ThreadId(x), e, id)
    ensures WriteEntry(db, x, e) == (db, id)
  {
    assert EntryMatch(db.messages[id.value], ThreadId(x), e);
    assert FindEntry(db, ThreadId(x), e) == id;
    assert Audited(db.threads[ThreadId(x)], db.messages[id.value]);
    assert !NeedsAudit(db, x, e);
  }

  lemma NewAuditKeepsAnswersUnique(db: Db, x: Exchange, e: Entry)
    requires UniqueAnswers(db) && FindEntry(db, ThreadId(x), e).None?
    ensures UniqueAnswers(WriteEntry(db, x, e).0)
  {
    if NeedsAudit(db, x, e) {
      assert FindAudit(db, x.scope, x.user, AuditTarget(ScopeKey(x.scope), e)).None?;
    }
  }

  lemma NewMessageKeepsEntriesUnique(db: Db, x: Exchange, e: Entry)
    requires UniqueEntries(db) && FindEntry(db, ThreadId(x), e).None?
    ensures UniqueEntries(WriteEntry(db, x, e).0)
  {
    var m := Row(db, x, e);
    assert WriteEntry(db, x, e).0.messages == db.messages[db.nextMessage := m];
    forall i | i in db.messages && KeyOf(m).Some? ensures KeyOf(db.messages[i]) != KeyOf(m) {
      assert !EntryMatch(db.messages[i], ThreadId(x), e);
    }
  }

  lemma NewRowIsAudited(db: Db, x: Exchange, e: Entry)
    requires Ready(db, x) && FindEntry(db, ThreadId(x), e).None?
    ensures Audited(db.threads[ThreadId(x)], Row(db, x, e))
  {
  }

  lemma NewEntryKeepsInv(db: Db, x: Exchange, e: Entry)
    requires Inv(db) && Ready(db, x) && FindEntry(db, ThreadId(x), e).None?
    ensures var (d, id) := WriteEntry(db, x, e);
            && Inv(d) && Extends(db, d) && OnlyInto(db, d, ThreadId(x)) && Records(d, ThreadId(x), e, id)
            && id == Some(db.nextMessage) && d.messages == db.messages[db.nextMessage := Row(db, x, e)]
  {
    NewAuditKeepsAnswersUnique(db, x, e);
    NewMessageKeepsEntriesUnique(db, x, e);
    NewRowIsAudited(db, x, e);
    var d := WriteEntry(db, x, e).0;
    NewAuditIsNumbered(db, x, e);
    InsertedKeepsInv(db, d, Row(db, x, e));
    assert EntryIsIn(d, ThreadId(x), e, db.nextMessage);
  }

  ghost predicate EntryIsIn(d: Db, thread: string, e: Entry, id: nat) {
    Records(d, thread, e, Some(id))
  }

  lemma NewAuditIsNumbered(db: Db, x: Exchange, e: Entry)
    requires (forall i | i in db.audits :: i < db.nextAudit)
    ensures var d := WriteEntry(db, x, e).0;
            && (forall i | i in d.audits :: i < d.nextAudit)
            && (forall i | i in db.audits :: i in d.audits && d.audits[i] == db.audits[i])
  {
  }

  lemma InsertedKeepsInv(db: Db, d: Db, m: Message)
    requires Inv(db) && d.threads == db.threads && m.thread in db.threads && Audited(db.threads[m.thread], m)
    requires d.messages == db.messages[db.nextMessage := m] && d.nextMessage == db.nextMessage + 1
    requires (forall i | i in d.audits :: i < d.nextAudit) && UniqueEntries(d) && UniqueAnswers(d)
    ensures Inv(d)
  {
  }

  /** One entry, new or recognised, is answered, and nothing stored is altered. */
  lemma WriteEntryAnswers(db: Db, x: Exchange, e: Entry)
    requires Inv(db) && Ready(db, x) && NoClash(db, ThreadId(x), e)
    ensures var (d, id) := WriteEntry(db, x, e);
            && Inv(d) && Extends(db, d) && OnlyInto(db, d, ThreadId(x)) && Records(d, ThreadId(x), e, id)
  {
    var f := FindEntry(db, ThreadId(x), e);
    if f.Some? {
      RecognisedEntryChangesNothing(db, x, e, f);
    } else {
      NewEntryKeepsInv(db, x, e);
    }
  }

  lemma NoClashCarries(db: Db, x: Exchange, e: Entry, f: Entry)
    requires Inv(db) && Ready(db, x) && NoClash(db, ThreadId(x), e) && NoClash(db, ThreadId(x), f) && !SameKey(e, f)
    ensures NoClash(WriteEntry(db, x, e).0, ThreadId(x), f)
  {
    var found := FindEntry(db, ThreadId(x), e);
    if found.Some? {
      RecognisedEntryChangesNothing(db, x, e, found);
    } else {
      NewEntryKeepsInv(db, x, e);
    }
  }

  /** Distinct, non-clashing entries are all answered: under the invariant there is no partial write. */
  lemma {:induction false} WriteEntriesAnswers(db: Db, x: Exchange, entries: seq<Entry>)
    requires Inv(db) && Ready(db, x) && DistinctKeys(entries)
    requires forall i | 0 <= i < |entries| :: NoClash(db, ThreadId(x), entries[i])
    ensures var (d, ids) := WriteEntries(db, x, entries);
            && Inv(d) && Extends(db, d) && OnlyInto(db, d, ThreadId(x)) && |ids| == |entries|
            && forall i | 0 <= i < |ids| :: Records(d, ThreadId(x), entries[i], ids[i])
    decreases |entries|
  {
    if entries != [] {
      WriteEntryAnswers(db, x, entries[0]);
      forall i | 1 <= i < |entries| ensures NoClash(WriteEntry(db, x, entries[0]).0, ThreadId(x), entries[i]) {
        NoClashCarries(db, x, entries[0], entries[i]);
      }
      WriteEntriesAnswers(WriteEntry(db, x, entries[0]).0, x, entries[1..]);
    }
  }

  lemma {:induction false} RecognisedEntriesChangeNothing(db: Db, x: Exchange, entries: seq<Entry>,
                                                          ids: seq<Option<nat>>)
    requires Inv(db) && Ready(db, x) && |ids| == |entries|
    requires forall i | 0 <= i < |entries| :: Keyed(entries[i]) && Records(db, ThreadId(x), entries[i], ids[i])
    ensures WriteEntries(db, x, entries) == (db, ids)
    decreases |entries|
  {
    if entries != [] {
      RecognisedEntryChangesNothing(db, x, entries[0], ids[0]);
      RecognisedEntriesChangeNothing(db, x, entries[1..], ids[1..]);
      assert [ids[0]] + ids[1..] == ids;
    }
  }

  lemma WriteEntriesUnfold(db: Db, x: Exchange, entries: seq<Entry>, i: nat, ids: seq<Option<nat>>)
    requires i < |entries|
    ensures var (d, id) := WriteEntry(db, x, entries[i]);
            && WriteEntries(db, x, entries[i..]).0 == WriteEntries(d, x, entries[i + 1..]).0
            && ids + WriteEntries(db, x, entries[i..]).1 == ids + [id] + WriteEntries(d, x, entries[i + 1..]).1
  {
    assert entries[i..][0] == entries[i] && entries[i..][1..] == entries[i + 1..];
  }

  /* ---------------- every step ---------------- */

  ghost function WithThread(db: Db, x: Exchange): Db {
    db.(threads := db.threads[ThreadId(x) := WrittenThread(db, x)])
  }

  lemma ThreadWriteKeepsInv(db: Db, x: Exchange)
    requires Inv(db) && Admits(db, x)
    ensures Inv(WithThread(db, x)) && Ready(WithThread(db, x), x)
  {
    var d := WithThread(db, x);
    forall i | i in d.messages
      ensures d.messages[i].thread in d.threads && Audited(d.threads[d.messages[i].thread], d.messages[i])
    {
      assert Audited(db.threads[db.messages[i].thread], db.messages[i]);
    }
  }

  lemma AppendAnswers(db: Db, x: Exchange)
    requires Inv(db) && Writes(db, x)
    ensures var (d, ids) := Append(db, x);
            && Inv(d) && Extends(WithThread(db, x), d) && OnlyInto(db, d, ThreadId(x)) && Ready(d, x)
            && |ids| == |x.entries|
            && forall i | 0 <= i < |ids| :: Records(d, ThreadId(x), Payload(x.entries[i]), ids[i])
  {
    var p := Payloads(x.entries);
    ThreadWriteKeepsInv(db, x);
    forall i | 0 <= i < |p| ensures NoClash(WithThread(db, x), ThreadId(x), p[i]) {
      NoConflictMeansNoClash(db, ThreadId(x), p[i]);
    }
    WriteEntriesAnswers(WithThread(db, x), x, p);
  }

  /** An append answers every entry or writes nothing at all. */
  lemma AppendAllOrNothing(db: Db, x: Exchange)
    requires Inv(db)
    ensures var (d, ids) := Append(db, x);
            if Writes(db, x) then |ids| == |x.entries| && (forall i | 0 <= i < |ids| :: ids[i].Some?)
            else d == db && ids == []
  {
    if Writes(db, x) {
      AppendAnswers(db, x);
    }
  }

  lemma StepKeepsInv(db: Db, s: Step)
    requires Inv(db)
    ensures Inv(Exec(db, s))
  {
    match s
    case CreateThread(c) =>
    case UpdateThread(c) =>
      if Changes(db, c) { UpdateKeepsInv(db, c); }
    case AppendExchange(x) =>
      if Writes(db, x) { AppendAnswers(db, x); }
  }

  lemma UpdateKeepsInv(db: Db, c: Change)
    requires Inv(db) && Changes(db, c)
    ensures Inv(Update(db, c))
  {
    var d := Update(db, c);
    forall i | i in d.messages
      ensures d.messages[i].thread in d.threads && Audited(d.threads[d.messages[i].thread], d.messages[i])
    {
      assert Audited(db.threads[db.messages[i].thread], db.messages[i]);
    }
  }

  lemma {:induction false} RunKeepsInv(db: Db, steps: seq<Step>)
    requires Inv(db)
    ensures Inv(Run(db, steps))
    decreases |steps|
  {
    if steps != [] {
      StepKeepsInv(db, steps[0]);
      RunKeepsInv(Exec(db, steps[0]), steps[1..]);
    }
  }

  /**
   After every run from empty tables no two messages share thread, interaction and type, no two answer
   audits share their five columns, and every answer in a workspace thread names its audit row.
   */
  lemma EntriesAndAuditsStayUnique(steps: seq<Step>)
    ensures var d := Run(Db(map[], map[], 0, map[], 0), steps);
            && (forall i, j | i in d.messages && j in d.messages && KeyOf(d.messages[i]).Some?
                              && KeyOf(d.messages[i]) == KeyOf(d.messages[j]) :: i == j)
            && (forall i, j | i in d.audits && j in d.audits && AnswerKey(d.audits[i]).Some?
                              && AnswerKey(d.audits[i]) == AnswerKey(d.audits[j]) :: i == j)
            && (forall i | i in d.messages ::
                  d.messages[i].thread in d.threads && Audited(d.threads[d.messages[i].thread], d.messages[i]))
  {
    RunKeepsInv(Db(map[], map[], 0, map[], 0), steps);
  }

  lemma {:induction false} RunAppend(db: Db, a: seq<Step>, b: seq<Step>)
    ensures Run(db, a + b) == Run(Run(db, a), b)
    decreases |a|
  {
    if a == [] {
      assert a + b == b;
    } else {
      assert (a + b)[1..] == a[1..] + b;
      RunAppend(Exec(db, a[0]), a[1..], b);
    }
  }

  /* ---------------- nothing stored is taken back ---------------- */

  /** Messages and audit rows stay, threads keep their owner, and a title once set is never default again. */
  ghost predicate Grows(a: Db, b: Db) {
    && (forall i | i in a.messages :: i in b.messages && b.messages[i] == a.messages[i])
    && (forall i | i in a.audits :: i in b.audits && b.audits[i] == a.audits[i])
    && (forall t | t in a.threads ::
          && t in b.threads && b.threads[t].user == a.threads[t].user && b.threads[t].scope == a.threads[t].scope
          && b.threads[t].scopeKey == a.threads[t].scopeKey
          && (a.threads[t].source != Default ==> b.threads[t].source != Default))
  }

  lemma AppendGrows(db: Db, x: Exchange)
    requires Inv(db) && Writes(db, x)
    ensures Grows(db, Append(db, x).0)
  {
    AppendAnswers(db, x);
    assert Grows(db, WithThread(db, x));
  }

  lemma StepGrows(db: Db, s: Step)
    requires Inv(db)
    ensures Grows(db, Exec(db, s))
  {
    match s
    case CreateThread(c) =>
    case UpdateThread(c) =>
    case AppendExchange(x) => if Writes(db, x) { AppendGrows(db, x); }
  }

  lemma {:induction false} RunGrows(db: Db, steps: seq<Step>)
    requires Inv(db)
    ensures Grows(db, Run(db, steps))
    decreases |steps|
  {
    if steps != [] {
      StepGrows(db, steps[0]);
      StepKeepsInv(db, steps[0]);
      RunGrows(Exec(db, steps[0]), steps[1..]);
    }
  }

  /* ---------------- a repeated exchange ---------------- */

  /** The same exchange sent again: only the fresh receipt ids may differ. */
  predicate SameExchange(x: Exchange, y: Exchange) {
    && x.user == y.user && x.scope == y.scope && ThreadId(x) == ThreadId(y) && |x.entries| == |y.entries|
    && forall i | 0 <= i < |x.entries| :: y.entries[i] == x.entries[i].(receipt := y.entries[i].receipt)
  }

  predicate AllKeyed(entries: seq<Entry>) {
    forall i | 0 <= i < |entries| :: Keyed(entries[i])
  }

  lemma {:induction false} SameFirstYou(a: seq<Entry>, b: seq<Entry>)
    requires |a| == |b| && forall i | 0 <= i < |a| :: a[i].content == b[i].content
    ensures FirstYou(a) == FirstYou(b)
    decreases |a|
  {
    if a != [] {
      SameFirstYou(a[1..], b[1..]);
    }
  }

  /** Once its title is no longer default or no request names it, an append keeps the thread row. */
  lemma RepeatKeepsThread(d: Db, x: Exchange, e: Db, y: Exchange)
    requires SameExchange(x, y) && Ready(d, x) && Grows(d, e) && Ready(e, y)
    requires FirstYou(Payloads(x.entries)).Some? ==> d.threads[ThreadId(x)].source != Default
    ensures WithThread(e, y) == e
  {
    SameFirstYou(Payloads(x.entries), Payloads(y.entries));
    assert WrittenThread(e, y) == e.threads[ThreadId(y)];
    assert e.threads[ThreadId(y) := e.threads[ThreadId(y)]] == e.threads;
  }

  lemma WrittenTitleIsNotDefault(db: Db, x: Exchange)
    requires FirstYou(Payloads(x.entries)).Some?
    ensures WrittenThread(db, x).source != Default
  {
  }

  lemma RecordsCarry(d: Db, e: Db, thread: string, p: Entry, q: Entry, id: Option<nat>)
    requires Grows(d, e) && Records(d, thread, p, id) && q == p.(receipt := q.receipt)
    ensures Records(e, thread, q, id)
  {
  }

  lemma RecordsMeansNoConflict(e: Db, thread: string, q: Entry, id: Option<nat>)
    requires UniqueEntries(e) && Keyed(q) && Records(e, thread, q, id)
    ensures !Conflicts(e, thread, q)
  {
    assert EntryMatch(e.messages[id.value], thread, q);
  }

  lemma SameKeysDistinct(x: Exchange, y: Exchange)
    requires SameExchange(x, y) && DistinctKeys(Payloads(x.entries))
    ensures DistinctKeys(Payloads(y.entries))
  {
    var p, q := Payloads(x.entries), Payloads(y.entries);
    forall i, j | 0 <= i < j < |q| ensures !SameKey(q[i], q[j]) {
      assert !SameKey(p[i], p[j]);
    }
  }

  /**
   A successful exchange whose entries carry interaction and type, sent again after any further
   steps: while its thread is active the tables stay as they are and the answer is the same
   messages, so the same receipts and audit ids; once archived the repeat is refused.
   */
  lemma RepeatChangesNothing(db: Db, x: Exchange, steps: seq<Step>, y: Exchange)
    requires Inv(db) && Writes(db, x) && AllKeyed(x.entries) && SameExchange(x, y)
    ensures var (d, ids) := Append(db, x);
            var e := Run(d, steps);
            && ThreadId(y) in e.threads
            && Append(e, y) == (e, if e.threads[ThreadId(y)].archived then [] else ids)
  {
    var (d, ids) := Append(db, x);
    var e := Run(d, steps);
    AppendAnswers(db, x);
    RunKeepsInv(d, steps);
    RunGrows(d, steps);
    if !e.threads[ThreadId(y)].archived {
      RepeatIsRecognised(db, x, e, y);
    }
  }

  lemma RepeatIsRecognised(db: Db, x: Exchange, e: Db, y: Exchange)
    requires Inv(db) && Writes(db, x) && AllKeyed(x.entries) && SameExchange(x, y)
    requires Grows(Append(db, x).0, e) && Inv(e) && Ready(e, y)
    ensures Append(e, y) == (e, Append(db, x).1)
  {
    var (d, ids) := Append(db, x);
    AppendAnswers(db, x);
    if FirstYou(Payloads(x.entries)).Some? {
      WrittenTitleIsNotDefault(db, x);
    }
    RepeatKeepsThread(d, x, e, y);
    SameKeysDistinct(x, y);
    RecordedExchangeIsRecognised(d, x, e, y, ids);
  }

  lemma RecordedExchangeIsRecognised(d: Db, x: Exchange, e: Db, y: Exchange, ids: seq<Option<nat>>)
    requires AllKeyed(x.entries) && SameExchange(x, y) && Grows(d, e) && Inv(e) && Ready(e, y)
    requires WithThread(e, y) == e && DistinctKeys(Payloads(y.entries)) && |ids| == |x.entries|
    requires forall i | 0 <= i < |ids| :: Records(d, ThreadId(x), Payload(x.entries[i]), ids[i])
    ensures Append(e, y) == (e, ids)
  {
    var q := Payloads(y.entries);
    forall i | 0 <= i < |q|
      ensures Keyed(q[i]) && Records(e, ThreadId(y), q[i], ids[i]) && !Conflicts(e, ThreadId(y), q[i])
    {
      assert Keyed(x.entries[i]);
      RecordsCarry(d, e, ThreadId(x), Payload(x.entries[i]), q[i], ids[i]);
      RecordsMeansNoConflict(e, ThreadId(y), q[i], ids[i]);
    }
    RecognisedEntriesChangeNothing(e, y, q, ids);
  }

  /** An identity that was answered once never accepts different content, in any later state. */
  lemma ChangedContentIsRefused(db: Db, x: Exchange, steps: seq<Step>, y: Exchange, i: nat, j: nat)
    requires Inv(db) && Writes(db, x) && ThreadId(y) == ThreadId(x)
    requires i < |x.entries| && j < |y.entries| && SameKey(x.entries[i], y.entries[j])
    requires Payload(x.entries[i]).content != Payload(y.entries[j]).content
    ensures var e := Run(Append(db, x).0, steps); Append(e, y) == (e, [])
  {
    var (d, ids) := Append(db, x);
    var e := Run(d, steps);
    AppendAnswers(db, x);
    RunKeepsInv(d, steps);
    RunGrows(d, steps);
    var p, f := Payload(x.entries[i]), Payload(y.entries[j]);
    RecordsCarry(d, e, ThreadId(x), p, p, ids[i]);
    ClashIsRefused(e, y, j, p, ids[i]);
  }

  lemma ClashIsRefused(e: Db, y: Exchange, j: nat, p: Entry, id: Option<nat>)
    requires UniqueEntries(e) && Records(e, ThreadId(y), p, id)
    requires j < |y.entries| && SameKey(p, Payload(y.entries[j])) && p.content != Payload(y.entries[j]).content
    ensures Append(e, y) == (e, [])
  {
    var q := Payloads(y.entries);
    assert EntryMatch(e.messages[id.value], ThreadId(y), q[j]);
    assert Conflicts(e, ThreadId(y), q[j]);
  }

  /* ---------------- where messages may sit ---------------- */

  /** Exchange `x`, run in `before`, put message `i` into a thread of its own user and raw scope. */
  ghost predicate PutBy(before: Db, x: Exchange, after: Db, i: nat) {
    && i !in before.messages && i in Append(before, x).0.messages && i in after.messages
    && after.messages[i] == Append(before, x).0.messages[i]
    && ThreadId(x) == after.messages[i].thread && ThreadId(x) in after.threads
    && after.threads[ThreadId(x)].user == x.user && after.threads[ThreadId(x)].scope == x.scope
    && (ThreadId(x) in before.threads ==> !before.threads[ThreadId(x)].archived)
  }

  ghost predicate HasAppender(db: Db, steps: seq<Step>, i: nat) {
    exists k | 0 <= k < |steps| ::
      steps[k].AppendExchange? && PutBy(Run(db, steps[..k]), steps[k].exchange, Run(db, steps), i)
  }

  lemma FirstStepPuts(db: Db, s: Step, after: Db, i: nat)
    requires Inv(db) && i !in db.messages && i in Exec(db, s).messages && Grows(Exec(db, s), after)
    ensures s.AppendExchange? && PutBy(db, s.exchange, after, i)
  {
    assert s.AppendExchange? && Writes(db, s.exchange);
    AppendAnswers(db, s.exchange);
  }

  lemma ShiftAppender(db: Db, steps: seq<Step>, i: nat)
    requires steps != [] && HasAppender(Exec(db, steps[0]), steps[1..], i)
    ensures HasAppender(db, steps, i)
  {
    var d, rest := Exec(db, steps[0]), steps[1..];
    var k :| 0 <= k < |rest| && rest[k].AppendExchange? && PutBy(Run(d, rest[..k]), rest[k].exchange, Run(d, rest), i);
    assert steps[..k + 1][1..] == rest[..k];
    assert PutBy(Run(db, steps[..k + 1]), steps[k + 1].exchange, Run(db, steps), i);
  }

  /**
   Every message of every run was put, while its thread was active, by an exchange of the very user
   and raw scope that the thread still has at the end of the run.
   */
  lemma {:induction false} MessagesStayWithTheirAppender(db: Db, steps: seq<Step>, i: nat)
    requires Inv(db) && i !in db.messages && i in Run(db, steps).messages
    ensures HasAppender(db, steps, i)
    decreases |steps|
  {
    var d := Exec(db, steps[0]);
    StepKeepsInv(db, steps[0]);
    if i in d.messages {
      RunGrows(d, steps[1..]);
      FirstStepPuts(db, steps[0], Run(db, steps), i);
      assert steps[..0] == [];
      assert PutBy(Run(db, steps[..0]), steps[0].exchange, Run(db, steps), i);
    } else {
      MessagesStayWithTheirAppender(d, steps[1..], i);
      ShiftAppender(db, steps, i);
    }
  }

  /**
   Users or raw scopes that differ only in what normalization drops share a default thread id: the
   one who comes second is refused for good, never let into the other's thread.
   */
  lemma CollidingOwnerIsRefused(db: Db, x: Exchange, steps: seq<Step>, y: Exchange)
    requires Inv(db) && Writes(db, x) && ThreadId(x) == ThreadId(y) && (x.user, x.scope) != (y.user, y.scope)
    ensures var e := Run(Append(db, x).0, steps); Append(e, y) == (e, [])
  {
    AppendAnswers(db, x);
    RunGrows(Append(db, x).0, steps);
  }

  /** Two users whose ids differ only in punctuation have one default thread in a scope. */
  lemma PunctuationCollides(s: Scope)
    ensures ThreadIdFor("a-b", ScopeKey(s)) == ThreadIdFor("ab", ScopeKey(s))
  {
    assert Lower("a-b") == "a-b" && Lower("ab") == "ab" by {
      assert Lower("b") == "b" && Lower("-b") == "-b";
    }
    assert Keep("b") == "b" && Keep("-b") == "b" && Keep("a-b") == "ab" && Keep("ab") == "ab";
  }

  /* ---------------- titles ---------------- */

  /** A step alters a title in two ways only: the owner renames, or an append meets a default title. */
  lemma TitleChangesExplained(db: Db, s: Step, t: string)
    requires Inv(db) && t in db.threads && t in Exec(db, s).threads
    requires Exec(db, s).threads[t].title != db.threads[t].title
             || Exec(db, s).threads[t].source != db.threads[t].source
    ensures if s.AppendExchange? then
              db.threads[t].source == Default && ThreadId(s.exchange) == t
                && FirstYou(Payloads(s.exchange.entries)).Some?
            else
              && s.UpdateThread? && Trim(s.change.id) == t && s.change.user == db.threads[t].user
              && s.change.title.Some? && Exec(db, s).threads[t].title == Trim(s.change.title.value)
              && Exec(db, s).threads[t].source == Manual
  {
    if s.AppendExchange? && Writes(db, s.exchange) {
      AppendAnswers(db, s.exchange);
    }
  }

  predicate Renames(s: Step, t: string) {
    s.UpdateThread? && Trim(s.change.id) == t && s.change.title.Some?
  }

  /** A title that is not default survives every run without a rename of that thread. */
  lemma {:induction false} TitleStaysUntilRenamed(db: Db, steps: seq<Step>, t: string)
    requires Inv(db) && t in db.threads && db.threads[t].source != Default
    requires forall k | 0 <= k < |steps| :: !Renames(steps[k], t)
    ensures t in Run(db, steps).threads
    ensures Run(db, steps).threads[t].title == db.threads[t].title
            && Run(db, steps).threads[t].source == db.threads[t].source
    decreases |steps|
  {
    if steps != [] {
      StepKeepsInv(db, steps[0]);
      StepGrows(db, steps[0]);
      assert !Renames(steps[0], t);
      var d := Exec(db, steps[0]);
      assert d.threads[t].title == db.threads[t].title && d.threads[t].source == db.threads[t].source by {
        if d.threads[t].title != db.threads[t].title || d.threads[t].source != db.threads[t].source {
          TitleChangesExplained(db, steps[0], t);
        }
      }
      TitleStaysUntilRenamed(d, steps[1..], t);
    }
  }
}
