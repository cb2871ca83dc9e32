/** The recursive checker of tool arguments against a subset of JSON Schema 2020-12. */
module SchemaCheck {
  import opened Wrappers

  /* ---------------- values and schemas ---------------- */

  datatype Field = Field(name: string, value: Value)

  /**
   JSON values, and what a property lookup can find besides: nothing, a function inherited from
   Object.prototype, or that prototype itself.
   */
  datatype Value =
    | Null
    | Bool(b: bool)
    | Num(n: real)
    | Str(s: string)
    | Arr(items: seq<Value>)
    | Obj(fields: seq<Field>)
    | Undefined
    | Function
    | Prototype

  datatype Kind = ObjectKind | StringKind | IntegerKind | NumberKind | BooleanKind | ArrayKind

  datatype Property = Property(name: string, schema: Schema)

  /** A keyword that is absent is none, or empty where that means the same. */
  datatype Schema = Schema(
    kind: Option<Kind>, properties: seq<Property>, required: seq<string>, closed: bool,
    minimum: Option<real>, maximum: Option<real>, items: Option<Schema>)

  const INHERITED := {
    "constructor", "hasOwnProperty", "isPrototypeOf", "propertyIsEnumerable", "toLocaleString", "toString", "valueOf",
    "__defineGetter__", "__defineSetter__", "__lookupGetter__", "__lookupSetter__"}

  const PROTO := "__proto__"

  predicate Owns(v: Value, name: string) {
    v.Obj? && exists i | 0 <= i < |v.fields| :: v.fields[i].name == name
  }

  function Own(fields: seq<Field>, name: string): (r: Value)
    requires exists i | 0 <= i < |fields| :: fields[i].name == name
    ensures exists i | 0 <= i < |fields| :: fields[i] == Field(name, r)
  {
    if fields[0].name == name then fields[0].value else Own(fields[1..], name)
  }

  /** What the expression obj[name] gives, the prototype chain included. */
  function Lookup(v: Value, name: string): Value {
    if Owns(v, name) then Own(v.fields, name)
    else if v.Obj? || v.Prototype? then
      if name in INHERITED then Function
      else if name == PROTO then (if v.Obj? then Prototype else Null)
      else Undefined
    else Undefined
  }

  predicate IsObject(v: Value) { v.Obj? || v.Prototype? }

  predicate IsWhole(n: real) { n == n.Floor as real }

  predicate HasKind(v: Value, k: Kind) {
    match k
    case ObjectKind => IsObject(v)
    case StringKind => v.Str?
    case IntegerKind => v.Num? && IsWhole(v.n)
    case NumberKind => v.Num?
    case BooleanKind => v.Bool?
    case ArrayKind => v.Arr?
  }

  /* ---------------- the checker ---------------- */

  datatype PathStep = Prop(name: string) | Index(i: nat)

  datatype Reason = WrongKind | Unknown(name: string) | Missing(name: string) | BelowMinimum | AboveMaximum

  datatype Violation = Violation(path: seq<PathStep>, reason: Reason)

  predicate Declares(s: Schema, name: string) {
    exists i | 0 <= i < |s.properties| :: s.properties[i].name == name
  }

  function FirstUnknown(v: Value, s: Schema, i: nat): Option<string>
    requires v.Obj? && i <= |v.fields|
    decreases |v.fields| - i
  {
    if i == |v.fields| then None
    else if !Declares(s, v.fields[i].name) then Some(v.fields[i].name)
    else FirstUnknown(v, s, i + 1)
  }

  function FirstMissing(v: Value, required: seq<string>): Option<string> {
    if required == [] then None
    else if Lookup(v, required[0]) == Undefined then Some(required[0])
    else FirstMissing(v, required[1..])
  }

  function CheckProperties(v: Value, s: Schema, i: nat, path: seq<PathStep>): Option<Violation>
    requires i <= |s.properties|
    decreases s, 0, |s.properties| - i
  {
    if i == |s.properties| then None
    else
      var p := s.properties[i];
      var child :=
        if Lookup(v, p.name) == Undefined then None
        else Check(Lookup(v, p.name), p.schema, path + [Prop(p.name)]);
      if child.Some? then child else CheckProperties(v, s, i + 1, path)
  }

  function CheckItems(items: seq<Value>, s: Schema, i: nat, path: seq<PathStep>): Option<Violation>
    requires i <= |items| && s.items.Some?
    decreases s, 0, |items| - i
  {
    if i == |items| then None
    else
      var child := Check(items[i], s.items.value, path + [Index(i)]);
      if child.Some? then child else CheckItems(items, s, i + 1, path)
  }

  /** The first violation in the checker's order, or none. */
  function Check(v: Value, s: Schema, path: seq<PathStep>): Option<Violation>
    decreases s, 1, 0
  {
    if s.kind.None? then None
    else if !HasKind(v, s.kind.value) then Some(Violation(path, WrongKind))
    else
      match s.kind.value
      case ObjectKind =>
        var unknown := if s.closed && v.Obj? then FirstUnknown(v, s, 0) else None;
        var missing := FirstMissing(v, s.required);
        if unknown.Some? then Some(Violation(path, Unknown(unknown.value)))
        else if missing.Some? then Some(Violation(path, Missing(missing.value)))
        else CheckProperties(v, s, 0, path)
      case ArrayKind => if s.items.Some? then CheckItems(v.items, s, 0, path) else None
      case IntegerKind => CheckBounds(v.n, s, path)
      case NumberKind => CheckBounds(v.n, s, path)
      case StringKind => None
      case BooleanKind => None
  }

  function CheckBounds(n: real, s: Schema, path: seq<PathStep>): Option<Violation> {
    if s.minimum.Some? && n < s.minimum.value then Some(Violation(path, BelowMinimum))
    else if s.maximum.Some? && n > s.maximum.value then Some(Violation(path, AboveMaximum))
    else None
  }

  function ValidateAgainst(s: Schema, args: Value): Option<Violation> { Check(args, s, []) }

  /* ---------------- the declarative reading ---------------- */

  /** Keywords speak only under the kind they belong to, and names are looked up as the checker does. */
  predicate Holds(v: Value, s: Schema)
    decreases s
  {
    && (s.kind.Some? ==> HasKind(v, s.kind.value))
    && (s.kind == Some(ObjectKind) ==>
          && (s.closed && v.Obj? ==> forall i | 0 <= i < |v.fields| :: Declares(s, v.fields[i].name))
          && (forall r | r in s.required :: Lookup(v, r) != Undefined)
          && forall i | 0 <= i < |s.properties| && Lookup(v, s.properties[i].name) != Undefined ::
               Holds(Lookup(v, s.properties[i].name), s.properties[i].schema))
    && (s.kind == Some(ArrayKind) && s.items.Some? ==>
          forall i | 0 <= i < |v.items| :: Holds(v.items[i], s.items.value))
    && (s.kind == Some(IntegerKind) || s.kind == Some(NumberKind) ==>
          (s.minimum.Some? ==> v.n >= s.minimum.value) && (s.maximum.Some? ==> v.n <= s.maximum.value))
  }

  lemma {:induction false} FirstUnknownExactly(v: Value, s: Schema, i: nat)
    requires v.Obj? && i <= |v.fields|
    ensures FirstUnknown(v, s, i).None? <==> forall j | i <= j < |v.fields| :: Declares(s, v.fields[j].name)
    ensures FirstUnknown(v, s, i).Some?
            ==> Owns(v, FirstUnknown(v, s, i).value) && !Declares(s, FirstUnknown(v, s, i).value)
    decreases |v.fields| - i
  {
    if i < |v.fields| {
      FirstUnknownExactly(v, s, i + 1);
    }
  }

  lemma {:induction false} FirstMissingExactly(v: Value, required: seq<string>)
    ensures FirstMissing(v, required).None? <==> forall r | r in required :: Lookup(v, r) != Undefined
    ensures var m := FirstMissing(v, required); m.Some? ==> m.value in required && Lookup(v, m.value) == Undefined
  {
    if required != [] {
      FirstMissingExactly(v, required[1..]);
    }
  }

  ghost predicate PropertiesHold(v: Value, s: Schema, i: nat) {
    forall j | i <= j < |s.properties| && Lookup(v, s.properties[j].name) != Undefined ::
      Holds(Lookup(v, s.properties[j].name), s.properties[j].schema)
  }

  lemma {:induction false} CheckPropertiesExactly(v: Value, s: Schema, i: nat, path: seq<PathStep>)
    requires i <= |s.properties|
    ensures CheckProperties(v, s, i, path).None? <==> PropertiesHold(v, s, i)
    decreases s, 0, |s.properties| - i
  {
    if i < |s.properties| {
      var p := s.properties[i];
      CheckExactly(Lookup(v, p.name), p.schema, path + [Prop(p.name)]);
      CheckPropertiesExactly(v, s, i + 1, path);
    }
  }

  lemma {:induction false} CheckItemsExactly(items: seq<Value>, s: Schema, i: nat, path: seq<PathStep>)
    requires i <= |items| && s.items.Some?
    ensures CheckItems(items, s, i, path).None? <==> forall j | i <= j < |items| :: Holds(items[j], s.items.value)
    decreases s, 0, |items| - i
  {
    if i < |items| {
      CheckExactly(items[i], s.items.value, path + [Index(i)]);
      CheckItemsExactly(items, s, i + 1, path);
    }
  }

  /** The checker finds nothing exactly when the value conforms, for every nested value and schema. */
  lemma {:induction false} CheckExactly(v: Value, s: Schema, path: seq<PathStep>)
    ensures Check(v, s, path).None? <==> Holds(v, s)
    decreases s, 1, 0
  {
    if s.kind == Some(ObjectKind) {
      if v.Obj? {
        FirstUnknownExactly(v, s, 0);
      }
      FirstMissingExactly(v, s.required);
      CheckPropertiesExactly(v, s, 0, path);
    } else if s.kind == Some(ArrayKind) && v.Arr? && s.items.Some? {
      CheckItemsExactly(v.items, s, 0, path);
    }
  }

  /** Which values each `type` takes; a whole number is an integer however it is written. */
  lemma KindsExactly(v: Value, k: int)
    ensures HasKind(v, ObjectKind) <==> v.Obj? || v.Prototype?
    ensures HasKind(v, StringKind) <==> v.Str?
    ensures HasKind(v, BooleanKind) <==> v.Bool?
    ensures HasKind(v, ArrayKind) <==> v.Arr?
    ensures HasKind(v, NumberKind) <==> v.Num?
    ensures HasKind(Num(k as real), IntegerKind) && !HasKind(Num(k as real + 0.5), IntegerKind)
    ensures HasKind(v, IntegerKind) ==> v.Num? && v.n == v.n.Floor as real
  {
    assert (k as real + 0.5).Floor == k;
  }

  /** Of an object the checker names the first undeclared field, and only without one the first missing name. */
  lemma {:induction false} UnknownComesFirst(v: Value, s: Schema, path: seq<PathStep>, i: nat)
    requires v.Obj? && s.kind == Some(ObjectKind) && s.closed && i < |v.fields| && !Declares(s, v.fields[i].name)
    requires forall j | 0 <= j < i :: Declares(s, v.fields[j].name)
    ensures Check(v, s, path) == Some(Violation(path, Unknown(v.fields[i].name)))
  {
    FirstUnknownFrom(v, s, 0, i);
  }

  lemma {:induction false} FirstUnknownFrom(v: Value, s: Schema, k: nat, i: nat)
    requires v.Obj? && k <= i < |v.fields| && !Declares(s, v.fields[i].name)
    requires forall j | k <= j < i :: Declares(s, v.fields[j].name)
    ensures FirstUnknown(v, s, k) == Some(v.fields[i].name)
    decreases i - k
  {
    if k < i {
      FirstUnknownFrom(v, s, k + 1, i);
    }
  }

  lemma {:induction false} MissingComesNext(v: Value, s: Schema, path: seq<PathStep>, i: nat)
    requires v.Obj? && s.kind == Some(ObjectKind)
    requires s.closed ==> forall j | 0 <= j < |v.fields| :: Declares(s, v.fields[j].name)
    requires i < |s.required| && Lookup(v, s.required[i]) == Undefined
    requires forall j | 0 <= j < i :: Lookup(v, s.required[j]) != Undefined
    ensures Check(v, s, path) == Some(Violation(path, Missing(s.required[i])))
  {
    FirstUnknownExactly(v, s, 0);
    FirstMissingFrom(v, s.required, i);
  }

  lemma {:induction false} FirstMissingFrom(v: Value, required: seq<string>, i: nat)
    requires i < |required| && Lookup(v, required[i]) == Undefined
    requires forall j | 0 <= j < i :: Lookup(v, required[j]) != Undefined
    ensures FirstMissing(v, required) == Some(required[i])
    decreases i
  {
    if i > 0 {
      FirstMissingFrom(v, required[1..], i - 1);
    }
  }

  /** A property lookup finds the first own field, else what every object inherits, else nothing. */
  lemma LookupExactly(fields: seq<Field>, name: string, i: nat)
    requires i < |fields| && fields[i].name == name && forall j | 0 <= j < i :: fields[j].name != name
    ensures Lookup(Obj(fields), name) == fields[i].value
    decreases i
  {
    if i > 0 {
      LookupExactly(fields[1..], name, i - 1);
    }
  }

  lemma InheritedLookup(v: Value, name: string)
    requires v.Obj? && forall j | 0 <= j < |v.fields| :: v.fields[j].name != name
    ensures Lookup(v, name)
            == (if name in INHERITED then Function else if name == "__proto__" then Prototype else Undefined)
  {
  }

  /* ---------------- where the reported path leads ---------------- */

  /** The value and schema that a path leads to. */
  ghost predicate Leads(v: Value, s: Schema, path: seq<PathStep>, w: Value, t: Schema)
    decreases |path|
  {
    if path == [] then v == w && s == t
    else
      match path[0]
      case Prop(name) =>
        exists i | 0 <= i < |s.properties| && s.properties[i].name == name ::
          Lookup(v, name) != Undefined && Leads(Lookup(v, name), s.properties[i].schema, path[1..], w, t)
      case Index(i) =>
        v.Arr? && i < |v.items| && s.items.Some? && Leads(v.items[i], s.items.value, path[1..], w, t)
  }

  /** What the reported reason says of the value and schema at the path. */
  predicate Breaks(w: Value, t: Schema, r: Reason) {
    match r
    case WrongKind => t.kind.Some? && !HasKind(w, t.kind.value)
    case Unknown(name) => t.closed && Owns(w, name) && !Declares(t, name)
    case Missing(name) => name in t.required && Lookup(w, name) == Undefined
    case BelowMinimum => w.Num? && t.minimum.Some? && w.n < t.minimum.value
    case AboveMaximum => w.Num? && t.maximum.Some? && w.n > t.maximum.value
  }

  ghost predicate Found(v: Value, s: Schema, path: seq<PathStep>, r: Reason) {
    exists w, t :: Leads(v, s, path, w, t) && Breaks(w, t, r) && !Holds(w, t)
  }

  /** The reported path extends the path given, by one that leads to a broken place. */
  ghost predicate Reports(v: Value, s: Schema, path: seq<PathStep>, x: Violation) {
    |path| <= |x.path| && x.path[..|path|] == path && Found(v, s, x.path[|path|..], x.reason)
  }

  lemma ReportsHere(v: Value, s: Schema, path: seq<PathStep>, r: Reason)
    requires Breaks(v, s, r) && !Holds(v, s)
    ensures Reports(v, s, path, Violation(path, r))
  {
    assert Leads(v, s, [], v, s);
    assert path[|path|..] == [];
  }

  lemma ReportsBelow(v: Value, s: Schema, path: seq<PathStep>, x: Violation, step: PathStep, w: Value, t: Schema)
    requires Reports(w, t, path + [step], x)
    requires forall rest, u, y :: Leads(w, t, rest, u, y) ==> Leads(v, s, [step] + rest, u, y)
    ensures Reports(v, s, path, x)
  {
    var rest := x.path[|path| + 1..];
    var u, y :| Leads(w, t, rest, u, y) && Breaks(u, y, x.reason) && !Holds(u, y);
    assert x.path[..|path| + 1][|path|] == step;
    assert x.path[|path|..] == [step] + rest;
    assert x.path[..|path|] == x.path[..|path| + 1][..|path|] == path;
    assert Leads(v, s, x.path[|path|..], u, y);
  }

  lemma {:induction false} CheckPropertiesReports(v: Value, s: Schema, i: nat, path: seq<PathStep>)
    requires i <= |s.properties| && CheckProperties(v, s, i, path).Some?
    ensures Reports(v, s, path, CheckProperties(v, s, i, path).value)
    decreases s, 0, |s.properties| - i
  {
    var p := s.properties[i];
    var sub := Lookup(v, p.name);
    if sub != Undefined && Check(sub, p.schema, path + [Prop(p.name)]).Some? {
      CheckReports(sub, p.schema, path + [Prop(p.name)]);
      forall rest, u, y | Leads(sub, p.schema, rest, u, y) ensures Leads(v, s, [Prop(p.name)] + rest, u, y) {
        assert ([Prop(p.name)] + rest)[1..] == rest;
      }
      ReportsBelow(v, s, path, CheckProperties(v, s, i, path).value, Prop(p.name), sub, p.schema);
    } else {
      CheckPropertiesReports(v, s, i + 1, path);
    }
  }

  lemma {:induction false} CheckItemsReports(v: Value, s: Schema, i: nat, path: seq<PathStep>)
    requires v.Arr? && i <= |v.items| && s.items.Some? && CheckItems(v.items, s, i, path).Some?
    ensures Reports(v, s, path, CheckItems(v.items, s, i, path).value)
    decreases s, 0, |v.items| - i
  {
    if Check(v.items[i], s.items.value, path + [Index(i)]).Some? {
      CheckReports(v.items[i], s.items.value, path + [Index(i)]);
      forall rest, u, y | Leads(v.items[i], s.items.value, rest, u, y) ensures Leads(v, s, [Index(i)] + rest, u, y) {
        assert ([Index(i)] + rest)[1..] == rest;
      }
      ReportsBelow(v, s, path, CheckItems(v.items, s, i, path).value, Index(i), v.items[i], s.items.value);
    } else {
      CheckItemsReports(v, s, i + 1, path);
    }
  }

  /** A reported path leads to a sub-value that breaks its sub-schema for the reported reason. */
  lemma {:induction false} CheckReports(v: Value, s: Schema, path: seq<PathStep>)
    requires Check(v, s, path).Some?
    ensures Reports(v, s, path, Check(v, s, path).value)
    decreases s, 1, 0
  {
    var x := Check(v, s, path).value;
    CheckExactly(v, s, path);
    if s.kind == Some(ObjectKind) && HasKind(v, ObjectKind) {
      if v.Obj? {
        FirstUnknownExactly(v, s, 0);
      }
      FirstMissingExactly(v, s.required);
      if (s.closed && v.Obj? && FirstUnknown(v, s, 0).Some?) || FirstMissing(v, s.required).Some? {
        ReportsHere(v, s, path, x.reason);
      } else {
        CheckPropertiesReports(v, s, 0, path);
      }
    } else if s.kind == Some(ArrayKind) && v.Arr? {
      CheckItemsReports(v, s, 0, path);
    } else {
      ReportsHere(v, s, path, x.reason);
    }
  }
}
