/**
 Which exchanges are accepted, what they leave in the tables and what the thread calls do, in terms of
 rows and columns alone.
 */
module ChatEffects {
  import opened Wrappers
  import opened Text
  import opened ChatScope
  import opened ChatStore
  import opened ChatTheorems
  import opened ChatDatabase

  /* ---------------- what is sent ---------------- */

  /** Blank messages are dropped, the others kept in order. */
  lemma {:induction false} BlankMessagesAreDropped(a: seq<Entry>, b: seq<Entry>, e: Entry)
    ensures NonBlank(a + b) == NonBlank(a) + NonBlank(b)
    ensures NonBlank([e]) == if Trim(e.content.body) == "" then [] else [e]
    ensures forall x :: x in NonBlank(a) <==> x in a && Trim(x.content.body) != ""
    decreases |a|
  {
    if a == [] {
      assert a + b == b;
    } else {
      assert (a + b)[1..] == a[1..] + b;
      BlankMessagesAreDropped(a[1..], b, e);
    }
  }

  lemma {:induction false} EmptyLinksAreDropped(a: seq<string>, b: seq<string>, l: string)
    ensures NonEmpty(a + b) == NonEmpty(a) + NonEmpty(b)
    ensures NonEmpty([l]) == if l == "" then [] else [l]
    decreases |a|
  {
    if a == [] {
      assert a + b == b;
    } else {
      assert (a + b)[1..] == a[1..] + b;
      EmptyLinksAreDropped(a[1..], b, l);
    }
  }

  /** At most 8000 characters of the body; links of assistants only, at most 200, none of them empty. */
  predicate StoredAs(stored: Content, sent: Content) {
    && stored == sent.(body := stored.body, links := stored.links)
    && stored.body == (if |sent.body| <= 8000 then sent.body else sent.body[..8000])
    && (sent.role == You || sent.links.None? ==> stored.links.None?)
    && (sent.role == Assistant && sent.links.Some? ==>
          && stored.links.Some?
          && stored.links.value == var kept := NonEmpty(sent.links.value); if |kept| <= 200 then kept else kept[..200])
  }

  lemma PayloadIsStored(e: Entry)
    ensures StoredAs(Payload(e).content, e.content) && Payload(e) == e.(content := Payload(e).content)
    ensures forall c | StoredAs(c, e.content) :: c == Payload(e).content
  {
  }

  /* ---------------- which exchanges are accepted ---------------- */

  function TargetId(x: Exchange): string {
    if x.requested.Some? then x.requested.value else ThreadIdFor(x.user, ScopeKey(x.scope))
  }

  /** The caller's own thread in the very scope, not archived; or no thread there and none asked for. */
  predicate ThreadOpenTo(db: Db, x: Exchange) {
    var id := TargetId(x);
    if id in db.threads then
      db.threads[id].user == x.user && db.threads[id].scope == x.scope && !db.threads[id].archived
    else x.requested.None?
  }

  /** No two messages carry the same interaction and entry type. */
  predicate KeysDiffer(entries: seq<Entry>) {
    forall i, j | 0 <= i < j < |entries| && entries[i].interaction.Some? && entries[i].entryType.Some? ::
      (entries[i].interaction, entries[i].entryType) != (entries[j].interaction, entries[j].entryType)
  }

  predicate UnderKey(m: Message, thread: string, e: Entry) {
    && e.interaction.Some? && e.entryType.Some?
    && m.thread == thread && m.interaction == e.interaction && m.entryType == e.entryType
  }

  /** Whatever is stored under the message's key has its content, and its audit id if it brings one. */
  predicate AgreesWithStored(db: Db, thread: string, e: Entry) {
    forall i | i in db.messages && UnderKey(db.messages[i], thread, e) ::
      StoredAs(db.messages[i].content, e.content) && (e.audit.Some? ==> db.messages[i].audit == e.audit)
  }

  lemma UnderKeyIsMatch(m: Message, thread: string, e: Entry)
    ensures UnderKey(m, thread, e) <==> EntryMatch(m, thread, Payload(e))
  {
  }

  lemma AgreementIsNoConflict(db: Db, thread: string, e: Entry)
    requires UniqueEntries(db)
    ensures AgreesWithStored(db, thread, e) <==> !Conflicts(db, thread, Payload(e))
  {
    NoConflictMeansNoClash(db, thread, Payload(e));
    PayloadIsStored(e);
    forall i | i in db.messages ensures UnderKey(db.messages[i], thread, e)
      <==> EntryMatch(db.messages[i], thread, Payload(e)) {
      UnderKeyIsMatch(db.messages[i], thread, e);
    }
  }

  /**
   One statement succeeds exactly when its thread is open to the caller, its keys differ, and every message
   agrees with what is stored under its key. It raises only for repeated keys, and else answers not found
   for a thread asked for by id and a conflict for the scope's own; either way nothing changes.
   */
  lemma AcceptedExactly(db: Db, x: Exchange)
    requires Inv(db)
    ensures var (d, r) := Attempt(db, x);
            var agrees := forall i | 0 <= i < |x.entries| :: AgreesWithStored(db, TargetId(x), x.entries[i]);
            && (r.Ok? <==> ThreadOpenTo(db, x) && KeysDiffer(x.entries) && agrees)
            && (r == Err(DuplicateRow) <==> ThreadOpenTo(db, x) && agrees && !KeysDiffer(x.entries))
            && (r.Err? && r.error != DuplicateRow ==>
                  r.error == if x.requested.Some? then ThreadNotFound else InteractionConflict)
            && (r.Err? ==> d == db)
  {
    var p := Payloads(x.entries);
    forall i | 0 <= i < |p| ensures AgreesWithStored(db, TargetId(x), x.entries[i])
      <==> !Conflicts(db, ThreadId(x), p[i]) {
      AgreementIsNoConflict(db, TargetId(x), x.entries[i]);
    }
    KeysDifferExactly(x);
    if ThreadId(x) in db.threads {
      assert HasItsKey(db.threads[ThreadId(x)]);
    }
  }

  lemma KeysDifferExactly(x: Exchange)
    ensures KeysDiffer(x.entries) <==> DistinctKeys(Payloads(x.entries))
  {
    var p := Payloads(x.entries);
    forall i, j | 0 <= i < j < |p|
      ensures SameKey(p[i], p[j]) <==>
              && x.entries[i].interaction.Some? && x.entries[i].entryType.Some?
              && (x.entries[i].interaction, x.entries[i].entryType)
                 == (x.entries[j].interaction, x.entries[j].entryType)
    {
    }
  }

  /* ---------------- what an accepted exchange leaves ---------------- */

  /** The audit row of an answer names scope and interaction, or the answer's own receipt. */
  predicate AnswerAudit(a: Audit, x: Exchange, e: Entry) {
    && a.workspace == x.scope.workspace && a.workspace.Some? && a.actor == x.user && a.kind == ChatAnswer
    && a.target == "chat:" + ScopeKey(x.scope) + ":" + (if e.interaction.Some? then e.interaction.value else e.receipt)
  }

  predicate IsAnswer(e: Entry) { e.content.role == Assistant && e.entryType == Some(AssistantAnswer) }

  /** A new message: its content, a receipt for assistants only, and for an answer in a workspace an audit row. */
  ghost predicate NewMessage(d: Db, x: Exchange, e: Entry, m: Message) {
    && m.thread == TargetId(x) && StoredAs(m.content, e.content) && m.interaction == e.interaction
       && m.entryType == e.entryType
    && m.receipt == (if e.content.role == Assistant then Some(e.receipt) else None)
    && (e.audit.Some? ==> m.audit == e.audit)
    && (e.audit.None? && IsAnswer(e) && x.scope.workspace.Some? ==>
          exists a :: a in d.audits && AnswerAudit(d.audits[a], x, e) && m.audit == Some(Decimal(a)))
    && (e.audit.None? && !(IsAnswer(e) && x.scope.workspace.Some?) ==> m.audit.None?)
  }

  /** Message `id` answers entry `e`: new as sent, or stored before under its key. */
  ghost predicate Answered(db: Db, d: Db, x: Exchange, e: Entry, id: Option<nat>) {
    && id.Some? && id.value in d.messages
    && if id.value in db.messages then
         UnderKey(db.messages[id.value], TargetId(x), e) && d.messages[id.value] == db.messages[id.value]
       else NewMessage(d, x, e, d.messages[id.value])
  }

  lemma NewRowIsNewMessage(db: Db, x: Exchange, e: Entry)
    requires Inv(db) && Ready(db, x) && FindEntry(db, ThreadId(x), Payload(e)).None?
    ensures NewMessage(WriteEntry(db, x, Payload(e)).0, x, e, Row(db, x, Payload(e)))
  {
    var p := Payload(e);
    var d := WriteEntry(db, x, p).0;
    PayloadIsStored(e);
    var f := FindAudit(db, x.scope, x.user, AuditTarget(ScopeKey(x.scope), p));
    if e.audit.None? && IsAnswer(e) && x.scope.workspace.Some? {
      var a := if f.Some? then f.value else db.nextAudit;
      assert a in d.audits && AnswerAudit(d.audits[a], x, e);
    }
  }

  lemma NewMessageCarries(d: Db, e: Db, x: Exchange, entry: Entry, m: Message)
    requires NewMessage(d, x, entry, m) && forall a | a in d.audits :: a in e.audits && e.audits[a] == d.audits[a]
    ensures NewMessage(e, x, entry, m)
  {
    if entry.audit.None? && IsAnswer(entry) && x.scope.workspace.Some? {
      var a :| a in d.audits && AnswerAudit(d.audits[a], x, entry) && m.audit == Some(Decimal(a));
      assert a in e.audits && AnswerAudit(e.audits[a], x, entry);
    }
  }

  lemma OneAnswered(db: Db, mid: Db, x: Exchange, e: Entry)
    requires Inv(mid) && Ready(mid, x) && NoClash(mid, ThreadId(x), Payload(e))
    requires forall i | i in db.messages :: i in mid.messages && mid.messages[i] == db.messages[i]
    requires forall i | i in mid.messages && i !in db.messages :: !UnderKey(mid.messages[i], TargetId(x), e)
    ensures var (d, id) := WriteEntry(mid, x, Payload(e));
            Answered(db, d, x, e, id) && d.messages.Keys == mid.messages.Keys + {id.value}
  {
    var f := FindEntry(mid, ThreadId(x), Payload(e));
    if f.Some? {
      RecognisedEntryChangesNothing(mid, x, Payload(e), f);
      UnderKeyIsMatch(mid.messages[f.value], ThreadId(x), e);
    } else {
      NewEntryKeepsInv(mid, x, Payload(e));
      NewRowIsNewMessage(mid, x, e);
    }
  }

  /** The entries still to be written meet nothing that this exchange wrote. */
  ghost predicate Unwritten(db: Db, mid: Db, x: Exchange, entries: seq<Entry>) {
    && DistinctKeys(Payloads(entries))
    && (forall k | 0 <= k < |entries| :: NoClash(mid, ThreadId(x), Payload(entries[k])))
    && (forall i | i in db.messages :: i in mid.messages && mid.messages[i] == db.messages[i])
    && forall k, i | 0 <= k < |entries| && i in mid.messages && i !in db.messages ::
         !UnderKey(mid.messages[i], TargetId(x), entries[k])
  }

  ghost predicate AnswersAll(db: Db, d: Db, x: Exchange, entries: seq<Entry>, ids: seq<Option<nat>>) {
    |ids| == |entries| && forall k | 0 <= k < |ids| :: Answered(db, d, x, entries[k], ids[k])
  }

  lemma {:induction false} AllAnswered(db: Db, mid: Db, x: Exchange, entries: seq<Entry>)
    requires Inv(mid) && Ready(mid, x) && Unwritten(db, mid, x, entries)
    ensures var (d, ids) := WriteEntries(mid, x, Payloads(entries)); AnswersAll(db, d, x, entries, ids)
    ensures var (d, ids) := WriteEntries(mid, x, Payloads(entries));
            forall i | i in d.messages && i !in mid.messages :: Some(i) in ids
    decreases |entries|
  {
    if entries != [] {
      var p := Payloads(entries);
      var (d, id) := WriteEntry(mid, x, p[0]);
      assert p[0] == Payload(entries[0]) && p[1..] == Payloads(entries[1..]);
      WriteEntryAnswers(mid, x, p[0]);
      OneAnswered(db, mid, x, entries[0]);
      RestStaysFree(db, mid, x, entries);
      AllAnswered(db, d, x, entries[1..]);
      AnswersFirst(db, mid, d, x, entries, id);
    }
  }

  lemma WriteFirst(mid: Db, x: Exchange, entries: seq<Entry>)
    requires entries != []
    ensures var (d, id) := WriteEntry(mid, x, Payload(entries[0]));
            var (e, ids) := WriteEntries(d, x, Payloads(entries[1..]));
            WriteEntries(mid, x, Payloads(entries)) == (e, [id] + ids)
  {
    var p := Payloads(entries);
    assert p[0] == Payload(entries[0]) && p[1..] == Payloads(entries[1..]);
  }

  lemma ConsAnswers(db: Db, d: Db, x: Exchange, entries: seq<Entry>, id: Option<nat>, ids: seq<Option<nat>>)
    requires entries != [] && Answered(db, d, x, entries[0], id) && AnswersAll(db, d, x, entries[1..], ids)
    ensures AnswersAll(db, d, x, entries, [id] + ids)
  {
    forall k | 0 <= k < |[id] + ids| ensures Answered(db, d, x, entries[k], ([id] + ids)[k]) {
      if k > 0 {
        assert ([id] + ids)[k] == ids[k - 1] && entries[k] == entries[1..][k - 1];
      }
    }
  }

  lemma ConsFinds(ids: seq<Option<nat>>, id: Option<nat>, i: nat)
    requires Some(i) == id || Some(i) in ids
    ensures Some(i) in [id] + ids
  {
  }

  lemma AnswersFirst(db: Db, mid: Db, d: Db, x: Exchange, entries: seq<Entry>, id: Option<nat>)
    requires entries != [] && WriteEntry(mid, x, Payload(entries[0])) == (d, id) && Inv(d) && Ready(d, x)
    requires Answered(db, d, x, entries[0], id) && d.messages.Keys == mid.messages.Keys + {id.value}
    requires Unwritten(db, d, x, entries[1..])
    requires var (e, ids) := WriteEntries(d, x, Payloads(entries[1..]));
             && AnswersAll(db, e, x, entries[1..], ids)
             && forall i | i in e.messages && i !in d.messages :: Some(i) in ids
    ensures var (e, ids) := WriteEntries(mid, x, Payloads(entries));
            && AnswersAll(db, e, x, entries, ids)
            && forall i | i in e.messages && i !in mid.messages :: Some(i) in ids
  {
    var (e, ids) := WriteEntries(d, x, Payloads(entries[1..]));
    RestExtends(db, d, x, entries[1..]);
    AnsweredCarries(db, d, e, x, entries[0], id);
    ConsAnswers(db, e, x, entries, id, ids);
    WriteFirst(mid, x, entries);
    forall i | i in e.messages && i !in mid.messages ensures Some(i) in [id] + ids {
      ConsFinds(ids, id, i);
    }
  }

  lemma RestExtends(db: Db, d: Db, x: Exchange, entries: seq<Entry>)
    requires Inv(d) && Ready(d, x) && Unwritten(db, d, x, entries)
    ensures Extends(d, WriteEntries(d, x, Payloads(entries)).0)
  {
    var p := Payloads(entries);
    forall i | 0 <= i < |p| ensures NoClash(d, ThreadId(x), p[i]) {
      assert p[i] == Payload(entries[i]);
    }
    WriteEntriesAnswers(d, x, p);
  }

  lemma AnsweredCarries(db: Db, d: Db, e: Db, x: Exchange, entry: Entry, id: Option<nat>)
    requires Answered(db, d, x, entry, id) && Extends(d, e)
    ensures Answered(db, e, x, entry, id)
  {
    if id.value !in db.messages {
      NewMessageCarries(d, e, x, entry, d.messages[id.value]);
    }
  }

  lemma RestStaysFree(db: Db, mid: Db, x: Exchange, entries: seq<Entry>)
    requires Inv(mid) && Ready(mid, x) && entries != [] && Unwritten(db, mid, x, entries)
    ensures Unwritten(db, WriteEntry(mid, x, Payload(entries[0])).0, x, entries[1..])
  {
    var p, d := Payloads(entries), WriteEntry(mid, x, Payload(entries[0])).0;
    assert p[1..] == Payloads(entries[1..]);
    forall k | 0 <= k < |entries[1..]|
      ensures NoClash(d, ThreadId(x), Payload(entries[1..][k]))
      ensures forall i | i in d.messages && i !in db.messages :: !UnderKey(d.messages[i], TargetId(x), entries[1..][k])
    {
      assert p[0] == Payload(entries[0]) && p[k + 1] == Payload(entries[k + 1]) && !SameKey(p[0], p[k + 1]);
      NoClashCarries(mid, x, p[0], p[k + 1]);
      FirstIsOther(mid, x, entries[0], entries[k + 1]);
    }
  }

  lemma FirstIsOther(mid: Db, x: Exchange, e: Entry, f: Entry)
    requires Inv(mid) && Ready(mid, x) && NoClash(mid, ThreadId(x), Payload(e)) && !SameKey(Payload(e), Payload(f))
    ensures var d := WriteEntry(mid, x, Payload(e)).0;
            forall i | i in d.messages && i !in mid.messages :: !UnderKey(d.messages[i], TargetId(x), f)
    ensures var d := WriteEntry(mid, x, Payload(e)).0;
            forall i | i in mid.messages :: i in d.messages && d.messages[i] == mid.messages[i]
  {
    var found := FindEntry(mid, ThreadId(x), Payload(e));
    if found.Some? {
      RecognisedEntryChangesNothing(mid, x, Payload(e), found);
    } else {
      NewEntryKeepsInv(mid, x, Payload(e));
    }
  }

  /** The audit row was written for one of these answers, which brought no audit id. */
  ghost predicate WrittenFor(a: Audit, x: Exchange, entries: seq<Entry>) {
    exists k | 0 <= k < |entries| :: IsAnswer(entries[k]) && entries[k].audit.None? && AnswerAudit(a, x, entries[k])
  }

  lemma OneAuditIsWrittenFor(mid: Db, x: Exchange, entries: seq<Entry>)
    requires entries != []
    ensures var d := WriteEntry(mid, x, Payload(entries[0])).0;
            && (forall a | a in d.audits && a !in mid.audits :: WrittenFor(d.audits[a], x, entries))
            && forall a | a in mid.audits && a < mid.nextAudit :: a in d.audits && d.audits[a] == mid.audits[a]
  {
    var d := WriteEntry(mid, x, Payload(entries[0])).0;
    forall a | a in d.audits && a !in mid.audits ensures WrittenFor(d.audits[a], x, entries) {
      assert NeedsAudit(mid, x, Payload(entries[0]));
      assert IsAnswer(entries[0]) && entries[0].audit.None? && AnswerAudit(d.audits[a], x, entries[0]);
    }
  }

  lemma {:induction false} NewAuditsAreWrittenFor(db: Db, mid: Db, x: Exchange, entries: seq<Entry>)
    requires Inv(mid) && Ready(mid, x) && Unwritten(db, mid, x, entries)
    ensures var d := WriteEntries(mid, x, Payloads(entries)).0;
            forall a | a in d.audits && a !in mid.audits :: WrittenFor(d.audits[a], x, entries)
    decreases |entries|
  {
    if entries != [] {
      var p := Payloads(entries);
      var d := WriteEntry(mid, x, p[0]).0;
      assert p[0] == Payload(entries[0]) && p[1..] == Payloads(entries[1..]);
      WriteEntryAnswers(mid, x, p[0]);
      RestStaysFree(db, mid, x, entries);
      NewAuditsAreWrittenFor(db, d, x, entries[1..]);
      OneAuditIsWrittenFor(mid, x, entries);
      AuditsCarry(db, mid, d, x, entries);
    }
  }

  lemma AuditsCarry(db: Db, mid: Db, d: Db, x: Exchange, entries: seq<Entry>)
    requires entries != [] && WriteEntry(mid, x, Payload(entries[0])).0 == d && Inv(d) && Ready(d, x)
    requires Unwritten(db, d, x, entries[1..])
    requires forall a | a in d.audits && a !in mid.audits :: WrittenFor(d.audits[a], x, entries)
    requires var e := WriteEntries(d, x, Payloads(entries[1..])).0;
             forall a | a in e.audits && a !in d.audits :: WrittenFor(e.audits[a], x, entries[1..])
    ensures var e := WriteEntries(mid, x, Payloads(entries)).0;
            forall a | a in e.audits && a !in mid.audits :: WrittenFor(e.audits[a], x, entries)
  {
    RestExtends(db, d, x, entries[1..]);
    WriteFirst(mid, x, entries);
    var e := WriteEntries(d, x, Payloads(entries[1..])).0;
    forall a | a in e.audits && a !in mid.audits ensures WrittenFor(e.audits[a], x, entries) {
      if a !in d.audits {
        WrittenForMore(e.audits[a], x, entries);
      }
    }
  }

  lemma WrittenForMore(a: Audit, x: Exchange, entries: seq<Entry>)
    requires entries != [] && WrittenFor(a, x, entries[1..])
    ensures WrittenFor(a, x, entries)
  {
    var k :| 0 <= k < |entries[1..]| && IsAnswer(entries[1..][k]) && entries[1..][k].audit.None?
      && AnswerAudit(a, x, entries[1..][k]);
    assert entries[k + 1] == entries[1..][k];
  }

  /** The first message of the user, whose text gives a thread its title. */
  predicate FirstQuestion(entries: seq<Entry>, i: nat) {
    i < |entries| && entries[i].content.role == You && forall j | 0 <= j < i :: entries[j].content.role == Assistant
  }

  lemma {:induction false} FirstYouIsFirstQuestion(entries: seq<Entry>)
    ensures FirstYou(entries).None? <==> forall i | 0 <= i < |entries| :: entries[i].content.role == Assistant
    ensures forall i: nat | FirstQuestion(entries, i) :: FirstYou(entries) == Some(entries[i].content.body)
    decreases |entries|
  {
    if entries != [] {
      FirstYouIsFirstQuestion(entries[1..]);
      forall i: nat | FirstQuestion(entries, i) ensures FirstYou(entries) == Some(entries[i].content.body) {
        if i > 0 {
          assert FirstQuestion(entries[1..], i - 1);
        }
      }
    }
  }

  /** At most 120 characters of a non-empty text. */
  predicate TitleFrom(title: string, text: string) {
    title == if |text| <= 120 then text else text[..120]
  }

  /** What an accepted exchange does to its thread row; only a default title gives way, to the first question. */
  ghost predicate ThreadAfter(db: Db, x: Exchange, t: Thread) {
    && t.user == x.user && t.scope == x.scope && t.scopeKey == ScopeKey(x.scope) && !t.archived
    && var old' := if TargetId(x) in db.threads then db.threads[TargetId(x)]
                   else Thread(x.user, x.scope, ScopeKey(x.scope), "New chat", Default, false);
       && (old'.source != Default ==> t == old')
       && (old'.source == Default && (forall i | 0 <= i < |x.entries| :: x.entries[i].content.role == Assistant)
           ==> t == old')
       && (forall i: nat | old'.source == Default && FirstQuestion(x.entries, i) && x.entries[i].content.body != "" ::
             t.source == Auto && TitleFrom(t.title, x.entries[i].content.body))
  }

  lemma WrittenThreadIsAfter(db: Db, x: Exchange)
    requires Inv(db) && ThreadOpenTo(db, x)
    ensures ThreadAfter(db, x, WrittenThread(db, x))
  {
    FirstYouOfPayloads(x.entries);
    if TargetId(x) in db.threads {
      assert HasItsKey(db.threads[TargetId(x)]);
    }
  }

  lemma FirstYouOfPayloads(entries: seq<Entry>)
    ensures FirstYou(Payloads(entries)).None? <==> forall i | 0 <= i < |entries| :: entries[i].content.role == Assistant
    ensures forall i: nat | FirstQuestion(entries, i) ::
              FirstYou(Payloads(entries)) == Some(Left(entries[i].content.body, 8000))
  {
    var p := Payloads(entries);
    FirstYouIsFirstQuestion(p);
    forall i: nat | FirstQuestion(entries, i) ensures FirstYou(p) == Some(Left(entries[i].content.body, 8000)) {
      assert FirstQuestion(p, i);
    }
    assert forall i | 0 <= i < |entries| :: p[i].content.role == entries[i].content.role;
  }

  /**
   What an accepted exchange answers and leaves: every message answered in order, the new ones as they were
   sent, audit rows for new answers only, all other messages, audit rows and threads as they were.
   */
  lemma AcceptedLeaves(db: Db, x: Exchange)
    requires Inv(db) && Attempt(db, x).1.Ok?
    ensures var (d, r) := Attempt(db, x);
            && Inv(d) && r.value.thread == TargetId(x) && |r.value.messages| == |x.entries|
            && (forall k | 0 <= k < |x.entries| :: Answered(db, d, x, x.entries[k], r.value.messages[k]))
            && (forall i | i in d.messages && i !in db.messages :: Some(i) in r.value.messages)
            && (forall a | a in d.audits && a !in db.audits :: WrittenFor(d.audits[a], x, x.entries))
            && (forall i | i in db.messages :: i in d.messages && d.messages[i] == db.messages[i])
            && (forall a | a in db.audits :: a in d.audits && d.audits[a] == db.audits[a])
            && TargetId(x) in d.threads && ThreadAfter(db, x, d.threads[TargetId(x)])
            && d.threads == db.threads[TargetId(x) := d.threads[TargetId(x)]]
  {
    AcceptedExactly(db, x);
    var mid, p := WithThread(db, x), Payloads(x.entries);
    ThreadWriteKeepsInv(db, x);
    AppendAnswers(db, x);
    AgreementMeansUnwritten(db, x);
    AllAnswered(db, mid, x, x.entries);
    NewAuditsAreWrittenFor(db, mid, x, x.entries);
    WrittenThreadIsAfter(db, x);
  }

  lemma AgreementMeansUnwritten(db: Db, x: Exchange)
    requires Inv(db) && KeysDiffer(x.entries)
    requires forall k | 0 <= k < |x.entries| :: AgreesWithStored(db, TargetId(x), x.entries[k])
    ensures Unwritten(db, WithThread(db, x), x, x.entries)
  {
    forall k | 0 <= k < |x.entries| ensures NoClash(WithThread(db, x), ThreadId(x), Payload(x.entries[k])) {
      AgreementIsNoConflict(db, TargetId(x), x.entries[k]);
      NoConflictMeansNoClash(db, ThreadId(x), Payload(x.entries[k]));
    }
  }

  /* ---------------- the whole call ---------------- */

  /** A thread id that callers may name. */
  predicate NameableThread(s: string) {
    && 12 <= |s| <= 204 && s[0] == 't' && s[1] == 'h' && s[2] == 'r' && s[3] == '_'
    && forall i | 4 <= i < |s| ::
         'a' <= s[i] <= 'z' || 'A' <= s[i] <= 'Z' || '0' <= s[i] <= '9' || s[i] in {'_', '|', '-'}
  }

  /** What the call makes of its arguments. */
  predicate CleanedTo(x: Exchange, c: Exchange) {
    && c.user == x.user && c.scope == x.scope && c.entries == NonBlank(x.entries)
    && (x.requested.None? || Trim(x.requested.value) == "" ==> c.requested.None?)
    && (x.requested.Some? && Trim(x.requested.value) != "" ==> c.requested == Some(Trim(x.requested.value)))
  }

  /** The same exchange with other receipts made for it. */
  predicate OnlyReceiptsDiffer(c: Exchange, d: Exchange, receipts: seq<string>) {
    && d == c.(entries := d.entries) && |d.entries| == |c.entries| == |receipts|
    && forall i | 0 <= i < |c.entries| :: d.entries[i] == c.entries[i].(receipt := receipts[i])
  }

  /**
   Without a message the call answers none and writes nothing; without a user, or with a thread id nobody may
   name, it is refused. Otherwise its first statement decides, unless it answered nothing and raised nothing:
   then a second one with fresh receipts does, after what others did.
   */
  lemma CallAnswers(db: Db, x: Exchange, c: Exchange, gap: seq<Step>, receipts: seq<string>)
    requires Inv(db) && CleanedTo(x, c) && |receipts| == |c.entries|
    ensures |Cleaned(x).entries| == |receipts|
    ensures var (d, r) := Sent(db, x, gap, receipts);
            && (c.entries == [] ==> d == db && r.Ok? && r.value.messages == [])
            && (c.entries != [] && (c.user == "" || (c.requested.Some? && !NameableThread(c.requested.value))) ==>
                  d == db && r == Err(Validation))
            && (c.entries != [] && c.user != "" && (c.requested.Some? ==> NameableThread(c.requested.value)) ==>
                  if Attempt(db, c).1.Ok? || Attempt(db, c).1 == Err(DuplicateRow) then (d, r) == Attempt(db, c)
                  else exists again :: OnlyReceiptsDiffer(c, again, receipts) && (d, r) == Attempt(Run(db, gap), again))
  {
    assert Cleaned(x) == c;
    if c.requested.Some? {
      NameableExactly(c.requested.value);
    }
    assert OnlyReceiptsDiffer(c, Refreshed(c, receipts), receipts);
  }

  lemma NameableExactly(s: string)
    ensures NameableThread(s) <==> IsThreadId(s)
  {
    if |s| >= 4 {
      assert s[..4] == [s[0], s[1], s[2], s[3]];
    }
  }

  /** A first exchange in a scope makes the scope's thread, the caller's own and active, and answers all messages. */
  lemma FirstExchangeMakesTheThread(db: Db, x: Exchange, gap: seq<Step>, receipts: seq<string>)
    requires Inv(db) && x.user != "" && x.requested.None? && NonBlank(x.entries) != []
             && KeysDiffer(NonBlank(x.entries))
    requires |receipts| == |NonBlank(x.entries)| && ThreadIdFor(x.user, ScopeKey(x.scope)) !in db.threads
    ensures |Cleaned(x).entries| == |receipts|
    ensures var (d, r) := Sent(db, x, gap, receipts);
            var id := ThreadIdFor(x.user, ScopeKey(x.scope));
            && r.Ok? && r.value.thread == id && |r.value.messages| == |receipts|
            && id in d.threads && d.threads[id].user == x.user && d.threads[id].scope == x.scope
               && !d.threads[id].archived
            && forall k | 0 <= k < |receipts| ::
                 && r.value.messages[k].Some? && r.value.messages[k].value in d.messages
                 && r.value.messages[k].value !in db.messages
                 && NewMessage(d, x, NonBlank(x.entries)[k], d.messages[r.value.messages[k].value])
  {
    var c := x.(entries := NonBlank(x.entries));
    assert CleanedTo(x, c);
    FirstAttempt(db, c);
    CallAnswers(db, x, c, gap, receipts);
    var (d, r) := Attempt(db, c);
    forall k | 0 <= k < |receipts| ensures NewMessage(d, x, c.entries[k], d.messages[r.value.messages[k].value]) {
      assert NewMessage(d, c, c.entries[k], d.messages[r.value.messages[k].value]);
    }
  }

  lemma FirstAttempt(db: Db, c: Exchange)
    requires Inv(db) && c.requested.None? && KeysDiffer(c.entries) && TargetId(c) !in db.threads
    ensures var (d, r) := Attempt(db, c);
            && r.Ok? && r.value.thread == TargetId(c) && |r.value.messages| == |c.entries|
            && TargetId(c) in d.threads && d.threads[TargetId(c)].user == c.user
            && d.threads[TargetId(c)].scope == c.scope && !d.threads[TargetId(c)].archived
            && forall k | 0 <= k < |c.entries| ::
                 && r.value.messages[k].Some? && r.value.messages[k].value in d.messages
                 && r.value.messages[k].value !in db.messages
                 && NewMessage(d, c, c.entries[k], d.messages[r.value.messages[k].value])
  {
    assert forall i | i in db.messages :: db.messages[i].thread in db.threads;
    AcceptedExactly(db, c);
    AcceptedLeaves(db, c);
    var (d, r) := Attempt(db, c);
    forall k | 0 <= k < |c.entries|
      ensures r.value.messages[k].value !in db.messages
      ensures NewMessage(d, c, c.entries[k], d.messages[r.value.messages[k].value])
    {
      AnsweredAnew(db, d, c, k, r.value.messages[k]);
    }
  }

  lemma AnsweredAnew(db: Db, d: Db, c: Exchange, k: nat, id: Option<nat>)
    requires k < |c.entries| && TargetId(c) !in db.threads
    requires forall i | i in db.messages :: db.messages[i].thread in db.threads
    requires Answered(db, d, c, c.entries[k], id)
    ensures id.Some? && id.value in d.messages && id.value !in db.messages
    ensures NewMessage(d, c, c.entries[k], d.messages[id.value])
  {
  }

  /** Naming a thread that is not there, before and at the retry, is answered not found and writes nothing. */
  lemma AbsentThreadIsNotFound(db: Db, x: Exchange, gap: seq<Step>, receipts: seq<string>)
    requires Inv(db) && x.user != "" && x.requested.Some? && NameableThread(Trim(x.requested.value))
             && NonBlank(x.entries) != []
    requires |receipts| == |NonBlank(x.entries)|
    requires Trim(x.requested.value) !in db.threads && Trim(x.requested.value) !in Run(db, gap).threads
    ensures |Cleaned(x).entries| == |receipts|
    ensures Sent(db, x, gap, receipts) == (Run(db, gap), Err(ThreadNotFound))
  {
    var c := x.(requested := Some(Trim(x.requested.value)), entries := NonBlank(x.entries));
    assert Trim(x.requested.value) != "";
    assert CleanedTo(x, c);
    CallAnswers(db, x, c, gap, receipts);
    AcceptedExactly(db, c);
    RunKeepsInv(db, gap);
    var again :| OnlyReceiptsDiffer(c, again, receipts) && Sent(db, x, gap, receipts) == Attempt(Run(db, gap), again);
    AcceptedExactly(Run(db, gap), again);
  }

  /* ---------------- thread calls ---------------- */

  /** A new thread: the trimmed title, or "New chat"; default only when no title was sent at all. */
  lemma CreationExactly(db: Db, c: Creation)
    ensures var d := Create(db, c);
            var works := c.user != "" && |Trim(c.title)| <= 120 && c.id !in db.threads;
            && (!works ==> d == db)
            && (works ==>
                  && c.id in d.threads && d.threads[c.id].user == c.user && d.threads[c.id].scope == c.scope
                  && d.threads[c.id].scopeKey == ScopeKey(c.scope) && !d.threads[c.id].archived
                  && d.threads[c.id].title == (if Trim(c.title) == "" then "New chat" else Trim(c.title))
                  && d.threads[c.id].source == (if c.title == "" then Default else Manual)
                  && d == db.(threads := db.threads[c.id := d.threads[c.id]], nextAudit := db.nextAudit + 1,
                              audits := db.audits[db.nextAudit :=
                                                  Audit(c.scope.workspace, c.user, ThreadCreate, c.id)]))
  {
  }

  /** Rename, archive and restore reach the caller's own thread in the very scope, and do what they are named for. */
  lemma ChangeExactly(db: Db, c: Change)
    requires Inv(db)
    ensures var d, id := Update(db, c), Trim(c.id);
            var works :=
              && c.user != "" && NameableThread(id) && (c.title.Some? || c.status.Some?)
              && (c.title.Some? ==> 0 < |Trim(c.title.value)| <= 120)
              && id in db.threads && db.threads[id].user == c.user && db.threads[id].scope == c.scope;
            && (!works ==> d == db)
            && (works ==>
                  && id in d.threads
                  && (c.title.Some? ==> d.threads[id].title == Trim(c.title.value) && d.threads[id].source == Manual)
                  && (c.title.None? ==>
                        d.threads[id].title == db.threads[id].title && d.threads[id].source == db.threads[id].source)
                  && (c.status == Some(Archived) ==> d.threads[id].archived)
                  && (c.status == Some(Active) ==> !d.threads[id].archived)
                  && (c.status.None? ==> d.threads[id].archived == db.threads[id].archived)
                  && d.threads[id].user == c.user && d.threads[id].scope == c.scope
                  && d.threads[id].scopeKey == ScopeKey(c.scope)
                  && exists kind :: KindOf(c, kind)
                       && d == db.(threads := db.threads[id := d.threads[id]], nextAudit := db.nextAudit + 1,
                                   audits := db.audits[db.nextAudit := Audit(c.scope.workspace, c.user, kind, id)]))
  {
    NameableExactly(Trim(c.id));
    if Trim(c.id) in db.threads {
      assert HasItsKey(db.threads[Trim(c.id)]);
    }
    assert KindOf(c, ChangeKind(c));
  }

  predicate KindOf(c: Change, kind: AuditKind) {
    && (c.status == Some(Archived) ==> kind == ThreadArchive) && (c.status == Some(Active) ==> kind == ThreadRestore)
    && (c.status.None? ==> kind == ThreadRename)
  }

  /** Archiving closes a thread to its owner's exchanges, and restoring opens it again. */
  lemma ArchiveClosesAndRestoreOpens(db: Db, c: Change, x: Exchange)
    requires Inv(db) && Update(db, c) != db && c.status.Some?
    requires TargetId(x) == Trim(c.id) && x.user == c.user && x.scope == c.scope
    ensures ThreadOpenTo(Update(db, c), x) <==> c.status == Some(Active)
    ensures c.status == Some(Archived) ==> Attempt(Update(db, c), x).1.Err?
  {
    ChangedIsOpen(db, c, x);
    UpdateStepKeepsInv(db, c);
    AcceptedExactly(Update(db, c), x);
  }

  lemma ChangedIsOpen(db: Db, c: Change, x: Exchange)
    requires Inv(db) && Update(db, c) != db && c.status.Some?
    requires TargetId(x) == Trim(c.id) && x.user == c.user && x.scope == c.scope
    ensures ThreadOpenTo(Update(db, c), x) <==> c.status == Some(Active)
  {
    ChangeExactly(db, c);
  }

  lemma UpdateStepKeepsInv(db: Db, c: Change)
    requires Inv(db)
    ensures Inv(Update(db, c))
  {
    StepKeepsInv(db, UpdateThread(c));
  }

  /** A step of a run does what the call made of it does. */
  lemma ChatStepsAreCalls(db: Db, x: Exchange, c: Creation, u: Change)
    requires Inv(db)
    ensures Run(db, [AppendExchange(x)]) == Attempt(db, x).0
    ensures Run(db, [CreateThread(c)]) == Create(db, c) && Run(db, [UpdateThread(u)]) == Update(db, u)
  {
    OneStep(db, AppendExchange(x));
    OneStep(db, CreateThread(c));
    OneStep(db, UpdateThread(u));
  }

  lemma OneStep(db: Db, s: Step)
    ensures Run(db, [s]) == Exec(db, s)
  {
    assert [s][1..] == [] && Run(db, [s]) == Run(Exec(db, s), []);
  }

  /** Normalizing keeps small letters and digits of the lowered id, in order. */
  lemma {:induction false} NormExactly(a: string, b: string, c: char)
    ensures Keep(a + b) == Keep(a) + Keep(b)
    ensures Keep([c]) == if 'a' <= c <= 'z' || '0' <= c <= '9' then [c] else ""
    ensures Norm(None) == "" && Norm(Some(a)) == Keep(Lower(a))
    decreases |a|
  {
    if a == [] {
      assert a + b == b;
    } else {
      assert (a + b)[1..] == a[1..] + b;
      NormExactly(a[1..], b, c);
    }
  }

  /** A default thread id is the prefix, the normalized user and the scope key, cut at 200 characters. */
  lemma DefaultThreadIdExactly(user: string, s: Scope)
    ensures var whole := "thr_" + Norm(Some(user)) + "__" + Norm(s.workspace) + "|" + Norm(s.project) + "|"
            + Norm(s.domain);
            ThreadIdFor(user, ScopeKey(s)) == if |whole| <= 200 then whole else whole[..200]
  {
    Joined("thr_" + Norm(Some(user)) + "__", Norm(s.workspace), Norm(s.project), Norm(s.domain));
  }

  lemma Joined(prefix: string, a: string, b: string, c: string)
    ensures prefix + (a + "|" + b + "|" + c) == prefix + a + "|" + b + "|" + c
  {
  }
}
