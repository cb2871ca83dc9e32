/**
 Chat as the worker runs it: the append call of up to two statements, thread creation and thread
 update, changing the three tables in place and proved against the statement functions.
 */
module ChatDatabase {
  import opened Wrappers
  import opened Text
  import opened ChatScope
  import opened ChatStore
  import opened ChatTheorems

  datatype Error = Validation | ThreadNotFound | InteractionConflict | DuplicateRow

  datatype Written = Written(thread: string, messages: seq<Option<nat>>)

  /** A blank thread id counts as none. */
  function Explicit(requested: Option<string>): Option<string> {
    if requested.None? || Trim(requested.value) == "" then None else Some(Trim(requested.value))
  }

  /** The exchange that a call sends: blank messages are dropped, the thread id is trimmed. */
  function Cleaned(x: Exchange): Exchange {
    x.(requested := Explicit(x.requested), entries := NonBlank(x.entries))
  }

  /** The second attempt makes a fresh receipt for every entry. */
  function Refreshed(x: Exchange, receipts: seq<string>): Exchange
    requires |receipts| == |x.entries|
  {
    x.(entries := seq(|x.entries|, i requires 0 <= i < |x.entries| => x.entries[i].(receipt := receipts[i])))
  }

  function FailureOf(x: Exchange): Error {
    if x.requested.Some? then ThreadNotFound else InteractionConflict
  }

  ghost predicate Raises(db: Db, x: Exchange) { Allowed(db, x) && !DistinctKeys(Payloads(x.entries)) }

  /** One statement and its answer. */
  ghost function Attempt(db: Db, x: Exchange): (Db, Result<Written, Error>) {
    if Raises(db, x) then (db, Err(DuplicateRow))
    else if Writes(db, x) then (Append(db, x).0, Ok(Written(ThreadId(x), Append(db, x).1)))
    else (db, Err(FailureOf(x)))
  }

  function Refusal(x: Exchange): Option<Error> {
    if x.user == "" || (x.requested.Some? && !IsThreadId(x.requested.value)) then Some(Validation) else None
  }

  /** The whole call; `gap` is what other sessions do between the two statements. */
  ghost function Sent(db: Db, x: Exchange, gap: seq<Step>, receipts: seq<string>): (Db, Result<Written, Error>)
    requires |receipts| == |Cleaned(x).entries|
  {
    var c := Cleaned(x);
    if c.entries == [] then
      (db, Ok(Written(if x.requested.Some? && x.requested.value != "" then x.requested.value
                      else ThreadIdFor(x.user, ScopeKey(x.scope)), [])))
    else if Refusal(c).Some? then (db, Err(Refusal(c).value))
    else if !Raises(db, c) && !Writes(db, c) then Attempt(Run(db, gap), Refreshed(c, receipts))
    else Attempt(db, c)
  }

  /** A call that ends in an error has written nothing; what changed is what others did meanwhile. */
  lemma FailedCallWritesNothing(db: Db, x: Exchange, gap: seq<Step>, receipts: seq<string>)
    requires |receipts| == |Cleaned(x).entries| && Sent(db, x, gap, receipts).1.Err?
    ensures Sent(db, x, gap, receipts).0 in {db, Run(db, gap)}
  {
  }

  /**
   A call that succeeds with messages answers all of them, in one thread of the caller's own, and
   calling again after any steps that leave the thread active answers the same and changes nothing.
   */
  lemma SuccessfulCallRepeats(db: Db, x: Exchange, gap: seq<Step>, receipts: seq<string>, later: seq<Step>,
                              y: Exchange, again: seq<Step>, more: seq<string>)
    requires Inv(db) && |receipts| == |Cleaned(x).entries| && Sent(db, x, gap, receipts).1.Ok?
    requires Cleaned(x).entries != [] && AllKeyed(Cleaned(x).entries)
    requires SameExchange(Cleaned(x), Cleaned(y)) && Refusal(Cleaned(y)).None? && |more| == |Cleaned(y).entries|
    requires var e := Run(Sent(db, x, gap, receipts).0, later);
             ThreadId(Cleaned(y)) in e.threads ==> !e.threads[ThreadId(Cleaned(y))].archived
    ensures var (d, r) := Sent(db, x, gap, receipts);
            && Sent(Run(d, later), y, again, more) == (Run(d, later), r)
            && |r.value.messages| == |Cleaned(x).entries| && r.value.thread in d.threads
            && d.threads[r.value.thread].user == x.user && d.threads[r.value.thread].scope == x.scope
  {
    var at, sent := SuccessIsAnAttempt(db, x, gap, receipts);
    AttemptRepeats(at, sent, later, Cleaned(y));
    SentAgain(Run(Sent(db, x, gap, receipts).0, later), y, again, more);
  }

  /** The statement that made a call succeed, and the state it met. */
  lemma SuccessIsAnAttempt(db: Db, x: Exchange, gap: seq<Step>, receipts: seq<string>) returns (at: Db, sent: Exchange)
    requires Inv(db) && |receipts| == |Cleaned(x).entries| && Cleaned(x).entries != []
    requires Sent(db, x, gap, receipts).1.Ok?
    ensures Inv(at) && Writes(at, sent) && Sent(db, x, gap, receipts) == Attempt(at, sent)
            && SameExchange(Cleaned(x), sent)
  {
    var c := Cleaned(x);
    RunKeepsInv(db, gap);
    at, sent := if Writes(db, c) then db else Run(db, gap), if Writes(db, c) then c else Refreshed(c, receipts);
  }

  lemma AttemptRepeats(at: Db, sent: Exchange, later: seq<Step>, c: Exchange)
    requires Inv(at) && Writes(at, sent) && AllKeyed(sent.entries) && sent.entries != [] && SameExchange(sent, c)
    requires var e := Run(Attempt(at, sent).0, later);
             ThreadId(c) in e.threads ==> !e.threads[ThreadId(c)].archived
    ensures var (d, r) := Attempt(at, sent);
            && Attempt(Run(d, later), c) == (Run(d, later), r) && r.Ok?
            && Writes(Run(d, later), c) && |r.value.messages| == |sent.entries| && r.value.thread in d.threads
            && d.threads[r.value.thread].user == sent.user && d.threads[r.value.thread].scope == sent.scope
  {
    AppendAnswers(at, sent);
    RepeatChangesNothing(at, sent, later, c);
    RunKeepsInv(Append(at, sent).0, later);
    AppendAllOrNothing(Run(Append(at, sent).0, later), c);
  }

  /** A call whose first statement writes makes no second one. */
  lemma SentAgain(e: Db, y: Exchange, again: seq<Step>, more: seq<string>)
    requires |more| == |Cleaned(y).entries| && Cleaned(y).entries != [] && Refusal(Cleaned(y)).None?
             && Writes(e, Cleaned(y))
    ensures Sent(e, y, again, more) == Attempt(e, Cleaned(y))
  {
  }

  class Database {
    var threads: map<string, Thread>
    var messages: map<nat, Message>
    var nextMessage: nat
    var audits: map<nat, Audit>
    var nextAudit: nat

    ghost function State(): Db
      reads this
    {
      Db(threads, messages, nextMessage, audits, nextAudit)
    }

    ghost predicate Valid()
      reads this
    {
      Inv(State())
    }

    constructor ()
      ensures Valid() && State() == Db(map[], map[], 0, map[], 0)
    {
      threads, messages, nextMessage, audits, nextAudit := map[], map[], 0, map[], 0;
    }

    /* ---------------- reads ---------------- */

    method SelectEntry(thread: string, e: Entry) returns (r: Option<nat>)
      requires Valid()
      ensures r == FindEntry(State(), thread, e)
    {
      if i :| i in messages && EntryMatch(messages[i], thread, e) {
        r := Some(i);
      } else {
        r := None;
      }
    }

    method SelectAudit(scope: Scope, actor: string, target: Option<string>) returns (r: Option<nat>)
      requires Valid()
      ensures r == FindAudit(State(), scope, actor, target)
    {
      if scope.workspace.None? || target.None? {
        return None;
      }
      if i :| i in audits && AuditMatch(audits[i], scope.workspace.value, actor, target.value) {
        r := Some(i);
      } else {
        r := None;
      }
    }

    method EntryConflicts(thread: string, e: Entry) returns (b: bool)
      requires Valid()
      ensures b == Conflicts(State(), thread, e)
    {
      var f := SelectEntry(thread, e);
      b := f.Some? && !Repeats(messages[f.value], e);
    }

    method HasConflict(thread: string, entries: seq<Entry>) returns (b: bool)
      requires Valid()
      ensures b <==> exists i | 0 <= i < |entries| :: Conflicts(State(), thread, entries[i])
    {
      b := false;
      for i := 0 to |entries|
        invariant b <==> exists j | 0 <= j < i :: Conflicts(State(), thread, entries[j])
      {
        var c := EntryConflicts(thread, entries[i]);
        b := b || c;
      }
    }

    /* ---------------- append ---------------- */

    /** The audit id of a new entry, with an audit row written when it needs one. */
    method AuditEntry(x: Exchange, e: Entry) returns (auditId: Option<string>)
      requires Valid() && FindEntry(State(), ThreadId(x), e).None?
      modifies this`audits, this`nextAudit
      ensures auditId == AuditFor(old(State()), x, e)
      ensures State().(messages := old(messages[nextMessage := Row(State(), x, e)]), nextMessage := nextMessage + 1)
              == WriteEntry(old(State()), x, e).0
    {
      var target := AuditTarget(ScopeKey(x.scope), e);
      var known := SelectAudit(x.scope, x.user, target);
      auditId := Coalesce(e.audit, if known.Some? then Some(Decimal(known.value)) else None);
      if target.Some? && x.scope.workspace.Some? && auditId.None? {
        auditId := Some(Decimal(nextAudit));
        audits := audits[nextAudit := Audit(x.scope.workspace, x.user, ChatAnswer, target.value)];
        nextAudit := nextAudit + 1;
      }
    }

    method AppendEntry(x: Exchange, e: Entry) returns (id: Option<nat>)
      requires Valid() && Ready(State(), x) && NoClash(State(), ThreadId(x), e)
      modifies this
      ensures Valid() && (State(), id) == WriteEntry(old(State()), x, e)
    {
      var found := SelectEntry(ThreadId(x), e);
      if found.Some? {
        RecognisedEntryChangesNothing(State(), x, e, found);
        return found;
      }
      NewEntryKeepsInv(State(), x, e);
      var auditId := AuditEntry(x, e);
      messages := messages[nextMessage :=
        Message(ThreadId(x), e.content, e.interaction, e.entryType, auditId,
                if e.content.role == Assistant then Some(e.receipt) else None)];
      id := Some(nextMessage);
      nextMessage := nextMessage + 1;
    }

    method AppendEntries(x: Exchange, entries: seq<Entry>) returns (ids: seq<Option<nat>>)
      requires Valid() && Ready(State(), x) && DistinctKeys(entries)
      requires forall i | 0 <= i < |entries| :: NoClash(State(), ThreadId(x), entries[i])
      modifies this
      ensures Valid() && (State(), ids) == WriteEntries(old(State()), x, entries)
    {
      ids := [];
      ghost var all := WriteEntries(State(), x, entries);
      assert entries[0..] == entries && [] + all.1 == all.1;
      for i := 0 to |entries|
        invariant Valid() && Ready(State(), x)
        invariant forall j | i <= j < |entries| :: NoClash(State(), ThreadId(x), entries[j])
        invariant WriteEntries(State(), x, entries[i..]).0 == all.0
        invariant ids + WriteEntries(State(), x, entries[i..]).1 == all.1
      {
        forall j | i < j < |entries| ensures NoClash(WriteEntry(State(), x, entries[i]).0, ThreadId(x), entries[j]) {
          NoClashCarries(State(), x, entries[i], entries[j]);
        }
        WriteEntriesUnfold(State(), x, entries, i, ids);
        WriteEntryAnswers(State(), x, entries[i]);
        var id := AppendEntry(x, entries[i]);
        ids := ids + [id];
      }
      assert entries[|entries|..] == [] && ids + [] == ids;
    }

    /** The append statement: answers, answers nothing, or raises because a key is repeated. */
    method AppendStatement(x: Exchange) returns (r: Result<Written, Error>)
      requires Valid()
      modifies this
      ensures Valid() && (State(), r) == Attempt(old(State()), x)
    {
      var id, p := ThreadId(x), Payloads(x.entries);
      var conflict := HasConflict(id, p);
      var admitted := if id in threads then OwnedBy(threads[id], x.user, x.scope) && !threads[id].archived
                      else x.requested.None?;
      if conflict || !admitted {
        return Err(FailureOf(x));
      }
      if !DistinctKeys(p) {
        return Err(DuplicateRow);
      }
      forall i | 0 <= i < |p| ensures NoClash(State(), id, p[i]) {
        NoConflictMeansNoClash(State(), id, p[i]);
      }
      ThreadWriteKeepsInv(State(), x);
      WriteThread(x);
      var ids := AppendEntries(x, p);
      r := Ok(Written(id, ids));
    }

    method WriteThread(x: Exchange)
      requires Valid() && Admits(State(), x)
      modifies this`threads
      ensures Valid() && State() == WithThread(old(State()), x)
    {
      ThreadWriteKeepsInv(State(), x);
      var id := ThreadId(x);
      var you := FirstYou(Payloads(x.entries));
      var title := if you.Some? then Left(you.value, 120) else "";
      var source := if you.Some? then Auto else Default;
      if id !in threads {
        threads := threads[id := Thread(x.user, x.scope, ScopeKey(x.scope), Or(title, "New chat"), source, false)];
      } else if threads[id].source == Default {
        threads := threads[id := threads[id].(title := Or(title, threads[id].title), source := source)];
      } else {
        assert threads[id := threads[id]] == threads;
      }
    }

    /** One retry, with fresh receipts, when the statement answered nothing. */
    method AppendChatExchange(x: Exchange, gap: seq<Step>, receipts: seq<string>) returns (r: Result<Written, Error>)
      requires Valid() && |receipts| == |Cleaned(x).entries|
      modifies this
      ensures Valid() && (State(), r) == Sent(old(State()), x, gap, receipts)
    {
      var c := Cleaned(x);
      if c.entries == [] {
        return Ok(Written(if x.requested.Some? && x.requested.value != "" then x.requested.value
                          else ThreadIdFor(x.user, ScopeKey(x.scope)), []));
      }
      if Refusal(c).Some? {
        return Err(Refusal(c).value);
      }
      r := AppendStatement(c);
      if r.Err? && r.error != DuplicateRow {
        OtherSessions(gap);
        r := AppendStatement(Refreshed(c, receipts));
      }
    }

    /* ---------------- threads ---------------- */

    method CreateChatThread(c: Creation) returns (created: bool)
      requires Valid()
      modifies this
      ensures Valid() && State() == Create(old(State()), c)
      ensures created ==> c.id !in old(threads) && c.id in threads
      ensures !created ==> State() == old(State())
    {
      StepKeepsInv(State(), CreateThread(c));
      var title := NewTitle(c);
      if c.user == "" || |title| > 120 || c.id in threads {
        return false;
      }
      threads := threads[c.id := Thread(c.user, c.scope, ScopeKey(c.scope), title,
                                        if c.title == "" then Default else Manual, false)];
      audits := audits[nextAudit := Audit(c.scope.workspace, c.user, ThreadCreate, c.id)];
      nextAudit := nextAudit + 1;
      created := true;
    }

    method UpdateChatThread(c: Change) returns (changed: bool)
      requires Valid()
      modifies this
      ensures Valid() && State() == Update(old(State()), c)
      ensures changed == Changes(old(State()), c)
    {
      if Changes(State(), c) {
        UpdateKeepsInv(State(), c);
      }
      var id := Trim(c.id);
      changed := !ChangeRefused(c) && id in threads && OwnedBy(threads[id], c.user, c.scope);
      if changed {
        WriteChange(c);
      }
    }

    method WriteChange(c: Change)
      requires Changes(State(), c)
      modifies this`threads, this`audits, this`nextAudit
      ensures State() == Update(old(State()), c)
    {
      var id := Trim(c.id);
      var t := threads[id];
      if c.title.Some? {
        t := t.(title := Trim(c.title.value), source := Manual);
      }
      if c.status.Some? {
        t := t.(archived := c.status == Some(Archived));
      }
      threads := threads[id := t];
      audits := audits[nextAudit := Audit(c.scope.workspace, c.user, ChangeKind(c), id)];
      nextAudit := nextAudit + 1;
    }

    /* ---------------- other sessions ---------------- */

    method ExecuteStep(s: Step)
      requires Valid()
      modifies this
      ensures Valid() && State() == Exec(old(State()), s)
    {
      match s {
        case CreateThread(c) => var _ := CreateChatThread(c);
        case UpdateThread(c) => var _ := UpdateChatThread(c);
        case AppendExchange(x) => var _ := AppendStatement(x);
      }
    }

    method OtherSessions(steps: seq<Step>)
      requires Valid()
      modifies this
      ensures Valid() && State() == Run(old(State()), steps)
    {
      ghost var before := State();
      for i := 0 to |steps|
        invariant Valid() && State() == Run(before, steps[..i])
      {
        RunAppend(before, steps[..i], [steps[i]]);
        assert steps[..i + 1] == steps[..i] + [steps[i]];
        ExecuteStep(steps[i]);
      }
      assert steps[..|steps|] == steps;
    }
  }
}
