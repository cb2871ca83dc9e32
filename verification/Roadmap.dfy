/**
 The roadmap part of provisioning: a step's first content takes the slot's base id, every other
 content a revision id made from its digest, and stored events are never written again.
 */
module Roadmap {
  import opened Text

  datatype Content = Content(summary: string, body: string)

  datatype Event = Event(workspace: string, project: string, content: Content)

  type Table = map<string, Event>

  datatype Plan = Plan(workspace: string, project: string, slug: string, steps: seq<Content>)

  /* ---------------- ids ---------------- */

  /** At least two digits. */
  function TwoDigits(n: nat): (s: string)
    ensures IsDigits(s)
  {
    if n < 10 then "0" + Decimal(n) else Decimal(n)
  }

  function BaseId(slug: string, i: nat): string { "evt_" + slug + "_roadmap" + "_" + TwoDigits(i + 1) }

  /** The hashed text; summary and body are told apart by the NUL between them. */
  function Hashed(c: Content): string { c.summary + "\U{0000}" + c.body }

  function RevisionId(base: string, c: Content, digest: string -> string): string {
    base + "_rev" + "_" + digest(Hashed(c))
  }

  predicate HasNul(s: string) { exists i | 0 <= i < |s| :: s[i] == '\U{0000}' }

  /** The database refuses a text with a NUL, and the whole transaction with it. */
  predicate Storable(c: Content) { !HasNul(c.summary) && !HasNul(c.body) }

  /* ---------------- the statements ---------------- */

  function AddStep(t: Table, p: Plan, i: nat, digest: string -> string): Table
    requires i < |p.steps|
  {
    var base, c := BaseId(p.slug, i), p.steps[i];
    var id := if base in t then RevisionId(base, c, digest) else base;
    if (base in t && t[base].content == c) || id in t then t
    else t[id := Event(p.workspace, p.project, c)]
  }

  function AddSteps(t: Table, p: Plan, i: nat, digest: string -> string): Table
    requires i <= |p.steps|
  {
    if i == 0 then t else AddStep(AddSteps(t, p, i - 1, digest), p, i - 1, digest)
  }

  predicate Accepted(p: Plan) {
    p.workspace != "" && p.project != "" && forall i | 0 <= i < |p.steps| :: Storable(p.steps[i])
  }

  function Provision(t: Table, p: Plan, digest: string -> string): Table {
    if Accepted(p) then AddSteps(t, p, |p.steps|, digest) else t
  }

  function Run(t: Table, plans: seq<Plan>, digest: string -> string): Table {
    if plans == [] then t else Provision(Run(t, plans[..|plans| - 1], digest), plans[|plans| - 1], digest)
  }

  /* ---------------- ids tell slots and revisions apart ---------------- */

  /** What `_` is last is known by the part after it having none. */
  predicate NoBar(s: string) { forall i | 0 <= i < |s| :: s[i] != '_' }

  lemma LastBar(a: string, x: string, b: string, y: string)
    requires a + "_" + x == b + "_" + y && NoBar(x) && NoBar(y)
    ensures a == b && x == y
  {
    var s, t := a + "_" + x, b + "_" + y;
    assert s[|a|] == '_' && t[|b|] == '_';
    assert forall i | |a| < i < |s| :: s[i] == x[i - |a| - 1];
    assert forall i | |b| < i < |t| :: t[i] == y[i - |b| - 1];
    assert |a| == |b|;
    assert a == s[..|a|] && b == t[..|b|];
    assert x == s[|a| + 1..] && y == t[|b| + 1..];
  }

  /** What is assumed of the digest: hexadecimal output, and no collision among these contents. */
  ghost predicate GoodDigest(digest: string -> string, contents: set<Content>) {
    && (forall s :: digest(s) != "" && NoBar(digest(s)))
    && forall c, d | c in contents && d in contents && digest(Hashed(c)) == digest(Hashed(d)) :: Hashed(c) == Hashed(d)
  }

  lemma HashedInjective(c: Content, d: Content)
    requires Storable(c) && Storable(d) && Hashed(c) == Hashed(d)
    ensures c == d
  {
    var s, t := Hashed(c), Hashed(d);
    assert s[|c.summary|] == '\U{0000}' && t[|d.summary|] == '\U{0000}';
    assert forall i | 0 <= i < |c.summary| :: s[i] == c.summary[i];
    assert forall i | 0 <= i < |d.summary| :: t[i] == d.summary[i];
    assert |c.summary| == |d.summary|;
    assert c.summary == s[..|c.summary|] && d.summary == t[..|d.summary|];
    assert c.body == s[|c.summary| + 1..] && d.body == t[|d.summary| + 1..];
  }

  /** The ids that a slot may own. */
  ghost predicate InSlot(id: string, base: string, digest: string -> string) {
    id == base || exists c :: id == RevisionId(base, c, digest)
  }

  predicate EndsWith(s: string, c: char) { s != "" && s[|s| - 1] == c }

  lemma BaseIsNoRevision(slug: string, i: nat, base: string, c: Content, digest: string -> string)
    requires NoBar(digest(Hashed(c)))
    ensures BaseId(slug, i) != RevisionId(base, c, digest)
  {
    assert EndsWith("evt_" + slug + "_roadmap", 'p') && EndsWith(base + "_rev", 'v');
    if BaseId(slug, i) == RevisionId(base, c, digest) {
      LastBar("evt_" + slug + "_roadmap", TwoDigits(i + 1), base + "_rev", digest(Hashed(c)));
    }
  }

  lemma RevisionsApart(a: string, c: Content, b: string, d: Content, digest: string -> string)
    requires NoBar(digest(Hashed(c))) && NoBar(digest(Hashed(d)))
             && RevisionId(a, c, digest) == RevisionId(b, d, digest)
    ensures a == b && digest(Hashed(c)) == digest(Hashed(d))
  {
    LastBar(a + "_rev", digest(Hashed(c)), b + "_rev", digest(Hashed(d)));
    assert a == (a + "_rev")[..|a|] && b == (b + "_rev")[..|b|];
  }

  lemma {:induction false} DecimalInjective(m: nat, n: nat)
    requires Decimal(m) == Decimal(n)
    ensures m == n
    decreases m
  {
    if m >= 10 && n >= 10 {
      var a, b := Decimal(m), Decimal(n);
      assert a[..|a| - 1] == Decimal(m / 10) && b[..|b| - 1] == Decimal(n / 10);
      DecimalInjective(m / 10, n / 10);
      assert a[|a| - 1] == DigitChar(m % 10) && b[|b| - 1] == DigitChar(n % 10);
    } else {
      DecimalLength(m);
      DecimalLength(n);
    }
  }

  lemma DecimalLength(m: nat)
    ensures |Decimal(m)| == 1 <==> m < 10
    ensures m >= 10 ==> Decimal(m)[0] != '0'
  {
    if m >= 10 {
      DecimalLength(m / 10);
    }
  }

  lemma TwoDigitsInjective(m: nat, n: nat)
    requires m > 0 && n > 0 && TwoDigits(m) == TwoDigits(n)
    ensures m == n
  {
    DecimalLength(m);
    DecimalLength(n);
    if m < 10 && n < 10 {
      assert TwoDigits(m)[1..] == Decimal(m) && TwoDigits(n)[1..] == Decimal(n);
    }
    assert Decimal(m) == Decimal(n);
    DecimalInjective(m, n);
  }

  lemma SameMiddle(a: string, x: string, y: string, b: string)
    requires a + x + b == a + y + b
    ensures x == y
  {
    assert |x| == |y|;
    assert x == (a + x + b)[|a|..|a| + |x|] && y == (a + y + b)[|a|..|a| + |y|];
  }

  /** Two steps share a base id only when slug and position agree. */
  lemma BaseIdInjective(slug: string, i: nat, slug': string, j: nat)
    requires BaseId(slug, i) == BaseId(slug', j)
    ensures slug == slug' && i == j
  {
    LastBar("evt_" + slug + "_roadmap", TwoDigits(i + 1), "evt_" + slug' + "_roadmap", TwoDigits(j + 1));
    SameMiddle("evt_", slug, slug', "_roadmap");
    TwoDigitsInjective(i + 1, j + 1);
  }

  /* ---------------- what a slot holds ---------------- */

  /** The contents provisioned for this base id so far. */
  function Provisioned(plans: seq<Plan>, base: string): set<Content> {
    set k, i | 0 <= k < |plans| && 0 <= i < |plans[k].steps| && Accepted(plans[k]) && BaseId(plans[k].slug, i) == base
      :: plans[k].steps[i]
  }

  /**
   The slot's events are its contents: the base id holds one of them, every other one has its revision
   id, and nothing else is there.
   */
  ghost predicate SlotHolds(t: Table, base: string, contents: set<Content>, digest: string -> string) {
    && (forall c | c in contents :: Storable(c))
    && (base !in t ==> contents == {})
    && (base in t ==> t[base].content in contents)
    && (forall c | c in contents && base in t && t[base].content != c ::
          RevisionId(base, c, digest) in t && t[RevisionId(base, c, digest)].content == c)
    && (forall id | id in t && InSlot(id, base, digest) && id != base ::
          t[id].content in contents && t[id].content != t[base].content
          && id == RevisionId(base, t[id].content, digest))
    && (base !in t ==> forall id | id in t :: !InSlot(id, base, digest))
  }

  lemma AddStepToItsSlot(t: Table, p: Plan, i: nat, contents: set<Content>, digest: string -> string)
    requires i < |p.steps| && Storable(p.steps[i])
    requires SlotHolds(t, BaseId(p.slug, i), contents, digest) && GoodDigest(digest, contents + {p.steps[i]})
    ensures SlotHolds(AddStep(t, p, i, digest), BaseId(p.slug, i), contents + {p.steps[i]}, digest)
  {
    var base, c := BaseId(p.slug, i), p.steps[i];
    var d := AddStep(t, p, i, digest);
    BaseIsNoRevision(p.slug, i, base, c, digest);
    if base in t && t[base].content != c {
      var id := RevisionId(base, c, digest);
      if id in t {
        assert InSlot(id, base, digest);
        RevisionsApart(base, c, base, t[id].content, digest);
        HashedInjective(c, t[id].content);
      } else {
        var x := t[base].content;
        if RevisionId(base, x, digest) == id {
          RevisionsApart(base, c, base, x, digest);
          HashedInjective(c, x);
        }
      }
    }
  }

  lemma AddStepToAnotherSlot(t: Table, p: Plan, i: nat, slug: string, j: nat, contents: set<Content>,
                             digest: string -> string)
    requires i < |p.steps| && BaseId(p.slug, i) != BaseId(slug, j)
    requires forall s :: NoBar(digest(s))
    requires SlotHolds(t, BaseId(slug, j), contents, digest)
    ensures SlotHolds(AddStep(t, p, i, digest), BaseId(slug, j), contents, digest)
  {
    var mine, base, c := BaseId(p.slug, i), BaseId(slug, j), p.steps[i];
    var id := if mine in t then RevisionId(mine, c, digest) else mine;
    assert !InSlot(id, base, digest) by {
      BaseIsNoRevision(slug, j, mine, c, digest);
      if x :| id == RevisionId(base, x, digest) {
        BaseIsNoRevision(p.slug, i, base, x, digest);
        RevisionsApart(mine, c, base, x, digest);
        assert false;
      }
    }
    forall x | x in contents ensures RevisionId(base, x, digest) != id {
      assert InSlot(RevisionId(base, x, digest), base, digest);
    }
  }

  /** What the first `i` steps of a plan add to a slot. */
  function StepContents(p: Plan, i: nat, base: string): set<Content>
    requires i <= |p.steps|
  {
    set k | 0 <= k < i && BaseId(p.slug, k) == base :: p.steps[k]
  }

  lemma {:induction false} AddStepsToSlot(t: Table, p: Plan, i: nat, slug: string, j: nat, contents: set<Content>,
                                          all: set<Content>, digest: string -> string)
    requires i <= |p.steps| && Accepted(p) && SlotHolds(t, BaseId(slug, j), contents, digest)
    requires GoodDigest(digest, all) && contents + StepContents(p, i, BaseId(slug, j)) <= all
    ensures SlotHolds(AddSteps(t, p, i, digest), BaseId(slug, j),
                      contents + StepContents(p, i, BaseId(slug, j)), digest)
    decreases i
  {
    var base := BaseId(slug, j);
    if i == 0 {
      NoStepsYet(p, base, contents);
    } else {
      KnownContentsGrow(p, i, base, contents);
      AddStepsToSlot(t, p, i - 1, slug, j, contents, all, digest);
      AddNextStep(AddSteps(t, p, i - 1, digest), p, i, slug, j, contents, all, digest);
    }
  }

  lemma NoStepsYet(p: Plan, base: string, contents: set<Content>)
    ensures contents + StepContents(p, 0, base) == contents
  {
  }

  lemma AddNextStep(t: Table, p: Plan, i: nat, slug: string, j: nat, contents: set<Content>, all: set<Content>,
                    digest: string -> string)
    requires 0 < i <= |p.steps| && Storable(p.steps[i - 1])
    requires SlotHolds(t, BaseId(slug, j), contents + StepContents(p, i - 1, BaseId(slug, j)), digest)
    requires GoodDigest(digest, all) && contents + StepContents(p, i, BaseId(slug, j)) <= all
    ensures SlotHolds(AddStep(t, p, i - 1, digest), BaseId(slug, j),
                      contents + StepContents(p, i, BaseId(slug, j)), digest)
  {
    var base := BaseId(slug, j);
    var before, after := contents + StepContents(p, i - 1, base), contents + StepContents(p, i, base);
    KnownContentsGrow(p, i, base, contents);
    FewerContents(digest, after, all);
    AddOneStep(t, p, i - 1, slug, j, before, after, digest);
  }

  lemma AddOneStep(t: Table, p: Plan, i: nat, slug: string, j: nat, before: set<Content>, after: set<Content>,
                   digest: string -> string)
    requires i < |p.steps| && Storable(p.steps[i]) && SlotHolds(t, BaseId(slug, j), before, digest)
             && GoodDigest(digest, after)
    requires after == before + (if BaseId(p.slug, i) == BaseId(slug, j) then {p.steps[i]} else {})
    ensures SlotHolds(AddStep(t, p, i, digest), BaseId(slug, j), after, digest)
  {
    if BaseId(p.slug, i) == BaseId(slug, j) {
      AddStepToItsSlot(t, p, i, before, digest);
    } else {
      assert after == before;
      AddStepToAnotherSlot(t, p, i, slug, j, before, digest);
    }
  }

  lemma StepContentsGrow(p: Plan, i: nat, base: string)
    requires 0 < i <= |p.steps|
    ensures StepContents(p, i, base) ==
            StepContents(p, i - 1, base) + (if BaseId(p.slug, i - 1) == base then {p.steps[i - 1]} else {})
  {
  }

  lemma KnownContentsGrow(p: Plan, i: nat, base: string, contents: set<Content>)
    requires 0 < i <= |p.steps|
    ensures contents + StepContents(p, i, base) ==
            contents + StepContents(p, i - 1, base) + (if BaseId(p.slug, i - 1) == base then {p.steps[i - 1]} else {})
  {
    StepContentsGrow(p, i, base);
  }

  lemma FewerContents(digest: string -> string, a: set<Content>, b: set<Content>)
    requires a <= b && GoodDigest(digest, b)
    ensures GoodDigest(digest, a)
  {
  }

  /**
   Over any sequence of provisioning runs, starting with the slot empty, a slot's events hold exactly
   the distinct contents ever provisioned there.
   */
  lemma {:induction false} SlotsHoldWhatWasProvisioned(t: Table, plans: seq<Plan>, slug: string, j: nat,
                                                       digest: string -> string)
    requires forall id | id in t :: !InSlot(id, BaseId(slug, j), digest)
    requires GoodDigest(digest, Provisioned(plans, BaseId(slug, j)))
    ensures SlotHolds(Run(t, plans, digest), BaseId(slug, j), Provisioned(plans, BaseId(slug, j)), digest)
    decreases |plans|
  {
    var base := BaseId(slug, j);
    if plans == [] {
      assert InSlot(base, base, digest);
      assert Provisioned(plans, base) == {};
    } else {
      var init, p := plans[..|plans| - 1], plans[|plans| - 1];
      ProvisionedSnoc(init, p, base);
      assert plans == init + [p];
      SlotsHoldWhatWasProvisioned(t, init, slug, j, digest);
      if Accepted(p) {
        AddStepsToSlot(Run(t, init, digest), p, |p.steps|, slug, j, Provisioned(init, base),
                       Provisioned(plans, base), digest);
      }
    }
  }

  lemma ProvisionedSnoc(init: seq<Plan>, p: Plan, base: string)
    ensures Provisioned(init + [p], base) ==
            Provisioned(init, base) + (if Accepted(p) then StepContents(p, |p.steps|, base) else {})
  {
    var plans := init + [p];
    assert forall k | 0 <= k < |init| :: plans[k] == init[k];
    assert plans[|init|] == p;
  }

  /** One event per content: the slot's contents and its events are the same number, told apart by id. */
  lemma OneEventPerContent(t: Table, base: string, contents: set<Content>, digest: string -> string, a: string,
                           b: string)
    requires SlotHolds(t, base, contents, digest) && a in t && b in t && InSlot(a, base, digest)
             && InSlot(b, base, digest)
    ensures t[a].content in contents
    ensures t[a].content == t[b].content <==> a == b
  {
  }

  lemma EveryContentHasItsEvent(t: Table, base: string, contents: set<Content>, digest: string -> string, c: Content)
    requires SlotHolds(t, base, contents, digest) && c in contents
    ensures exists id :: id in t && InSlot(id, base, digest) && t[id].content == c
  {
    var id := if t[base].content == c then base else RevisionId(base, c, digest);
    assert id in t && InSlot(id, base, digest) && t[id].content == c;
  }

  lemma {:induction false} AddStepsKeepsStored(t: Table, p: Plan, i: nat, digest: string -> string, id: string)
    requires i <= |p.steps| && id in t
    ensures id in AddSteps(t, p, i, digest) && AddSteps(t, p, i, digest)[id] == t[id]
    decreases i
  {
    if i > 0 {
      AddStepsKeepsStored(t, p, i - 1, digest, id);
    }
  }

  /** No provisioning run alters a stored event. */
  lemma {:induction false} StoredEventsAreNeverAltered(t: Table, plans: seq<Plan>, digest: string -> string, id: string)
    requires id in t
    ensures id in Run(t, plans, digest) && Run(t, plans, digest)[id] == t[id]
    decreases |plans|
  {
    if plans != [] {
      StoredEventsAreNeverAltered(t, plans[..|plans| - 1], digest, id);
      var p := plans[|plans| - 1];
      AddStepsKeepsStored(Run(t, plans[..|plans| - 1], digest), p, |p.steps|, digest, id);
    }
  }

  lemma RepeatedStepIsIdle(t: Table, p: Plan, i: nat, contents: set<Content>, digest: string -> string)
    requires i < |p.steps| && p.steps[i] in contents && SlotHolds(t, BaseId(p.slug, i), contents, digest)
    ensures AddStep(t, p, i, digest) == t
  {
  }

  /** However many plans came before, provisioning the last one again changes nothing. */
  lemma RerunChangesNothing(plans: seq<Plan>, digest: string -> string)
    requires plans != [] && var p := plans[|plans| - 1];
               forall i | 0 <= i < |p.steps| :: GoodDigest(digest, Provisioned(plans, BaseId(p.slug, i)))
    ensures Provision(Run(map[], plans, digest), plans[|plans| - 1], digest) == Run(map[], plans, digest)
  {
    var p := plans[|plans| - 1];
    if Accepted(p) {
      RerunSteps(plans, |p.steps|, digest);
    }
  }

  lemma {:induction false} RerunSteps(plans: seq<Plan>, i: nat, digest: string -> string)
    requires plans != [] && i <= |plans[|plans| - 1].steps| && Accepted(plans[|plans| - 1])
    requires var p := plans[|plans| - 1];
             forall k | 0 <= k < i :: GoodDigest(digest, Provisioned(plans, BaseId(p.slug, k)))
    ensures AddSteps(Run(map[], plans, digest), plans[|plans| - 1], i, digest) == Run(map[], plans, digest)
    decreases i
  {
    if i > 0 {
      var p := plans[|plans| - 1];
      var base := BaseId(p.slug, i - 1);
      RerunSteps(plans, i - 1, digest);
      SlotsHoldWhatWasProvisioned(map[], plans, p.slug, i - 1, digest);
      assert p.steps[i - 1] in Provisioned(plans, base);
      RepeatedStepIsIdle(Run(map[], plans, digest), p, i - 1, Provisioned(plans, base), digest);
    }
  }

  /** Event `id` was made for one of the plan's steps: its slot, workspace, project and content. */
  ghost predicate MadeFor(p: Plan, id: string, e: Event, digest: string -> string) {
    exists k | 0 <= k < |p.steps| ::
      InSlot(id, BaseId(p.slug, k), digest) && e == Event(p.workspace, p.project, p.steps[k])
  }

  lemma {:induction false} NewEventsAreTheSteps(t: Table, p: Plan, i: nat, digest: string -> string, id: string)
    requires i <= |p.steps| && id !in t && id in AddSteps(t, p, i, digest)
    ensures MadeFor(p, id, AddSteps(t, p, i, digest)[id], digest)
    decreases i
  {
    if id in AddSteps(t, p, i - 1, digest) {
      NewEventsAreTheSteps(t, p, i - 1, digest, id);
      AddStepKeepsStored(AddSteps(t, p, i - 1, digest), p, i - 1, digest, id);
    } else {
      assert InSlot(id, BaseId(p.slug, i - 1), digest);
    }
  }

  lemma AddStepKeepsStored(t: Table, p: Plan, i: nat, digest: string -> string, id: string)
    requires i < |p.steps| && id in t
    ensures id in AddStep(t, p, i, digest) && AddStep(t, p, i, digest)[id] == t[id]
  {
  }

  /** Every event that a provisioning run adds is in a slot of its plan, with the plan's workspace and project. */
  lemma ProvisionedEventsCarryThePlan(t: Table, p: Plan, digest: string -> string, id: string)
    requires id !in t && id in Provision(t, p, digest)
    ensures Accepted(p) && MadeFor(p, id, Provision(t, p, digest)[id], digest)
  {
    NewEventsAreTheSteps(t, p, |p.steps|, digest, id);
  }

  /** A plan is taken as a whole unless it names no workspace or project, or a text the database cannot store. */
  lemma AcceptedExactly(p: Plan)
    ensures Accepted(p) <==>
            && p.workspace != "" && p.project != ""
            && forall i, j | 0 <= i < |p.steps| ::
                 && (0 <= j < |p.steps[i].summary| ==> p.steps[i].summary[j] != '\U{0000}')
                 && (0 <= j < |p.steps[i].body| ==> p.steps[i].body[j] != '\U{0000}')
  {
    if forall i, j | 0 <= i < |p.steps| ::
         && (0 <= j < |p.steps[i].summary| ==> p.steps[i].summary[j] != '\U{0000}')
         && (0 <= j < |p.steps[i].body| ==> p.steps[i].body[j] != '\U{0000}')
    {
      forall i | 0 <= i < |p.steps| ensures Storable(p.steps[i]) {
      }
    }
  }

  /** The first and the twelfth slot of a customer, and a revision. */
  lemma SlotNames(c: Content, digest: string -> string)
    ensures BaseId("acme", 0) == "evt_acme_roadmap_01" && BaseId("acme", 11) == "evt_acme_roadmap_12"
    ensures RevisionId(BaseId("acme", 0), c, digest)
            == "evt_acme_roadmap_01_rev_" + digest(c.summary + ['\U{0000}'] + c.body)
  {
    assert Decimal(1) == "1" && Decimal(12) == Decimal(1) + "2";
    assert Hashed(c) == c.summary + ['\U{0000}'] + c.body;
  }

  class Events {
    var rows: Table

    constructor ()
      ensures rows == map[]
    {
      rows := map[];
    }

    method ProvisionRoadmap(p: Plan, digest: string -> string)
      modifies this
      ensures rows == Provision(old(rows), p, digest)
    {
      if p.workspace == "" || p.project == "" || exists i | 0 <= i < |p.steps| :: !Storable(p.steps[i]) {
        return;
      }
      for i := 0 to |p.steps|
        invariant rows == AddSteps(old(rows), p, i, digest)
      {
        var base, c := BaseId(p.slug, i), p.steps[i];
        var id := base;
        if base in rows {
          if rows[base].content == c {
            continue;
          }
          id := RevisionId(base, c, digest);
        }
        if id !in rows {
          rows := rows[id := Event(p.workspace, p.project, c)];
        }
      }
    }
  }
}
