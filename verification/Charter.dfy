/** The one charter row per workspace, written by provisioning seeds and by edits. */
module Charter {
  import opened Wrappers

  datatype Texts = Texts(mission: Option<string>, background: Option<string>, industry: Option<string>,
                         teamSize: Option<string>, objectives: Option<string>)

  datatype Row = Row(texts: Texts, constraints: string, metadata: string)

  datatype Write =
    | Seed(texts: Texts)
    | Edit(texts: Texts, constraints: string, metadata: string)

  const NO_TEXTS := Texts(None, None, None, None, None)

  function Prefer(a: Texts, b: Texts): Texts {
    Texts(Coalesce(a.mission, b.mission), Coalesce(a.background, b.background), Coalesce(a.industry, b.industry),
          Coalesce(a.teamSize, b.teamSize), Coalesce(a.objectives, b.objectives))
  }

  /** A seed fills in what is missing, an edit replaces what it gives. */
  function Merge(row: Option<Row>, w: Write): Row {
    match w
    case Seed(texts) =>
      if row.None? then Row(texts, "[]", "{}") else row.value.(texts := Prefer(row.value.texts, texts))
    case Edit(texts, constraints, metadata) =>
      Row(if row.None? then texts else Prefer(texts, row.value.texts), constraints, metadata)
  }

  function After(history: seq<Write>): Option<Row> {
    if history == [] then None else Some(Merge(After(history[..|history| - 1]), history[|history| - 1]))
  }

  datatype Column = Mission | Background | Industry | TeamSize | Objectives

  function At(t: Texts, c: Column): Option<string> {
    match c
    case Mission => t.mission
    case Background => t.background
    case Industry => t.industry
    case TeamSize => t.teamSize
    case Objectives => t.objectives
  }

  /** The last edit of the history that gives this column, read backwards. */
  function LastEdit(history: seq<Write>, c: Column): Option<string> {
    if history == [] then None
    else
      var w := history[|history| - 1];
      if w.Edit? && At(w.texts, c).Some? then At(w.texts, c) else LastEdit(history[..|history| - 1], c)
  }

  /** The first seed of the history that gives this column, read forwards. */
  function FirstSeed(history: seq<Write>, c: Column): Option<string> {
    if history == [] then None
    else if history[0].Seed? && At(history[0].texts, c).Some? then At(history[0].texts, c)
    else FirstSeed(history[1..], c)
  }

  /** Constraints and metadata of the last edit, or what a first seed starts them with. */
  function LastExtras(history: seq<Write>): (string, string) {
    if history == [] then ("[]", "{}")
    else
      var w := history[|history| - 1];
      if w.Edit? then (w.constraints, w.metadata) else LastExtras(history[..|history| - 1])
  }

  lemma {:induction false} FirstSeedSnoc(history: seq<Write>, w: Write, c: Column)
    ensures FirstSeed(history + [w], c) ==
            Coalesce(FirstSeed(history, c), if w.Seed? then At(w.texts, c) else None)
    decreases |history|
  {
    if history == [] {
      assert [w][1..] == [];
    } else {
      assert (history + [w])[1..] == history[1..] + [w];
      FirstSeedSnoc(history[1..], w, c);
    }
  }

  /**
   Over any mix of seeds and edits each text is the last one an edit gave, or else the first one a
   seed gave; constraints and metadata are those of the last edit.
   */
  lemma {:induction false} CharterKeepsTwoPriorities(history: seq<Write>, c: Column)
    requires history != []
    ensures After(history).Some?
    ensures At(After(history).value.texts, c) == Coalesce(LastEdit(history, c), FirstSeed(history, c))
    ensures (After(history).value.constraints, After(history).value.metadata) == LastExtras(history)
    decreases |history|
  {
    var init, w := history[..|history| - 1], history[|history| - 1];
    assert history == init + [w];
    FirstSeedSnoc(init, w, c);
    MergeColumn(After(init), w, c);
    if init != [] {
      CharterKeepsTwoPriorities(init, c);
    }
  }

  /** One write, seen from one column. */
  lemma MergeColumn(row: Option<Row>, w: Write, c: Column)
    ensures var before := if row.None? then None else At(row.value.texts, c);
            At(Merge(row, w).texts, c) ==
              if w.Seed? then Coalesce(before, At(w.texts, c)) else Coalesce(At(w.texts, c), before)
  {
    if row.Some? {
      PreferColumn(row.value.texts, w.texts, c);
      PreferColumn(w.texts, row.value.texts, c);
    }
  }

  lemma PreferColumn(a: Texts, b: Texts, c: Column)
    ensures At(Prefer(a, b), c) == Coalesce(At(a, c), At(b, c))
  {
  }

  class Charters {
    var rows: map<string, Row>
    var audits: seq<(string, string)>

    constructor ()
      ensures rows == map[] && audits == []
    {
      rows, audits := map[], [];
    }

    ghost function Get(workspace: string): Option<Row>
      reads this
    {
      if workspace in rows then Some(rows[workspace]) else None
    }

    method SeedCharter(workspace: string, texts: Texts)
      modifies this`rows
      ensures Get(workspace) == Some(Merge(old(Get(workspace)), Seed(texts)))
      ensures forall w | w != workspace :: Get(w) == old(Get(w))
    {
      if workspace !in rows {
        rows := rows[workspace := Row(texts, "[]", "{}")];
      } else {
        rows := rows[workspace := rows[workspace].(texts := Prefer(rows[workspace].texts, texts))];
      }
    }

    method UpsertCharter(workspace: string, actor: string, texts: Texts, constraints: string, metadata: string)
      modifies this
      ensures Get(workspace) == Some(Merge(old(Get(workspace)), Edit(texts, constraints, metadata)))
      ensures forall w | w != workspace :: Get(w) == old(Get(w))
      ensures audits == old(audits) + [(actor, workspace)]
    {
      var stored := if workspace in rows then rows[workspace].texts else NO_TEXTS;
      rows := rows[workspace := Row(Prefer(texts, stored), constraints, metadata)];
      audits := audits + [(actor, workspace)];
    }
  }
}
