/**
 The argument checker beside JSON Schema 2020-12: which schemas make the two differ on some JSON value,
 decided on the schema alone. A schema's property names are distinct, as the keys of a record are.
 */
module SchemaStandard {
  import opened Wrappers
  import opened SchemaCheck

  /* ---------------- two readings ---------------- */

  /**
   JSON Schema 2020-12, Validation 6.1.1, 6.2.2, 6.2.4, 6.5.3 and Core 10.3.1.2, 10.3.2.1, 10.3.2.3: each
   keyword speaks of the values it applies to whatever `type` says, and names mean own properties.
   */
  predicate Conforms(v: Value, s: Schema)
    decreases s
  {
    && (s.kind.Some? ==> HasKind(v, s.kind.value))
    && (v.Obj? ==>
          && (s.closed ==> forall i | 0 <= i < |v.fields| :: Declares(s, v.fields[i].name))
          && (forall r | r in s.required :: Owns(v, r))
          && forall i | 0 <= i < |s.properties| && Owns(v, s.properties[i].name) ::
               Conforms(Own(v.fields, s.properties[i].name), s.properties[i].schema))
    && (v.Arr? && s.items.Some? ==> forall i | 0 <= i < |v.items| :: Conforms(v.items[i], s.items.value))
    && (v.Num? && s.minimum.Some? ==> v.n >= s.minimum.value)
    && (v.Num? && s.maximum.Some? ==> v.n <= s.maximum.value)
  }

  /** What a JSON text can carry. */
  predicate IsJson(v: Value) {
    match v
    case Arr(items) => forall i | 0 <= i < |items| :: IsJson(items[i])
    case Obj(fields) => forall i | 0 <= i < |fields| :: IsJson(fields[i].value)
    case Undefined => false
    case Function => false
    case Prototype => false
    case _ => true
  }

  /** Holds is what the checker decides, Conforms what the standard says. */
  datatype Reading = Checker | Standard

  predicate Accepts(rd: Reading, v: Value, s: Schema) {
    match rd
    case Checker => Holds(v, s)
    case Standard => Conforms(v, s)
  }

  function Other(rd: Reading): Reading { if rd == Checker then Standard else Checker }

  predicate DistinctNames(s: Schema)
    decreases s
  {
    && (forall i, j | 0 <= i < j < |s.properties| :: s.properties[i].name != s.properties[j].name)
    && (forall i | 0 <= i < |s.properties| :: DistinctNames(s.properties[i].schema))
    && (s.items.Some? ==> DistinctNames(s.items.value))
  }

  /** The schema asks for nothing, at any depth. */
  predicate AsksNothing(s: Schema)
    decreases s
  {
    && s.kind.None? && s.minimum.None? && s.maximum.None? && s.required == [] && !s.closed
    && (forall i | 0 <= i < |s.properties| :: AsksNothing(s.properties[i].schema))
    && (s.items.Some? ==> AsksNothing(s.items.value))
  }

  /** A name that the schema does not declare and that is longer than all it declares. */
  function FreshName(properties: seq<Property>): (n: string)
    ensures forall i | 0 <= i < |properties| :: |properties[i].name| < |n|
  {
    if properties == [] then "x"
    else
      var rest := FreshName(properties[1..]);
      if |properties[0].name| < |rest| then rest else properties[0].name + "x"
  }

  function OfOtherKind(k: Kind): (v: Value)
    ensures IsJson(v) && !HasKind(v, k)
  {
    if k == StringKind then Null else Str("")
  }

  /** A JSON value that breaks a schema which asks for something. */
  lemma {:induction false} Refute(s: Schema) returns (v: Value)
    requires !AsksNothing(s)
    ensures IsJson(v) && !Conforms(v, s)
    decreases s
  {
    if s.kind.Some? {
      v := OfOtherKind(s.kind.value);
    } else if s.minimum.Some? {
      v := Num(s.minimum.value - 1.0);
    } else if s.maximum.Some? {
      v := Num(s.maximum.value + 1.0);
    } else if s.required != [] {
      v := Obj([]);
      assert s.required[0] in s.required && !Owns(v, s.required[0]);
    } else if s.closed {
      v := Obj([Field(FreshName(s.properties), Null)]);
      assert !Declares(s, v.fields[0].name);
    } else if s.items.Some? && !AsksNothing(s.items.value) {
      var w := Refute(s.items.value);
      v := Arr([w]);
      assert v.items[0] == w;
    } else {
      var i :| 0 <= i < |s.properties| && !AsksNothing(s.properties[i].schema);
      var w := Refute(s.properties[i].schema);
      v := Obj([Field(s.properties[i].name, w)]);
      assert v.fields[0].name == s.properties[i].name;
      assert Owns(v, s.properties[i].name) && Own(v.fields, s.properties[i].name) == w;
    }
  }

  lemma {:induction false} AsksNothingAcceptsAll(v: Value, s: Schema)
    requires AsksNothing(s)
    ensures Conforms(v, s)
    decreases s
  {
    if v.Obj? {
      forall i | 0 <= i < |s.properties| && Owns(v, s.properties[i].name)
        ensures Conforms(Own(v.fields, s.properties[i].name), s.properties[i].schema)
      {
        AsksNothingAcceptsAll(Own(v.fields, s.properties[i].name), s.properties[i].schema);
      }
    }
    if v.Arr? && s.items.Some? {
      forall i | 0 <= i < |v.items| ensures Conforms(v.items[i], s.items.value) {
        AsksNothingAcceptsAll(v.items[i], s.items.value);
      }
    }
  }

  /* ---------------- which names an object must own ---------------- */

  predicate Inherits(name: string) { name in INHERITED || name == PROTO }

  function InheritedValue(name: string): Value { if name == PROTO then Prototype else Function }

  /** A property that what every object inherits under its name does not satisfy. */
  predicate RefusesInherited(p: Property) { Inherits(p.name) && !Holds(InheritedValue(p.name), p.schema) }

  /**
   The names without which a reading refuses an object. The standard asks for the required ones; the checker
   finds inherited ones always there, and asks for those whose inherited value it would refuse.
   */
  function Needs(rd: Reading, s: Schema): set<string> {
    match rd
    case Checker =>
      (set r | r in s.required && !Inherits(r))
      + (set i | 0 <= i < |s.properties| && RefusesInherited(s.properties[i]) :: s.properties[i].name)
    case Standard => set r | r in s.required
  }

  predicate Takes(rd: Reading, v: Value, s: Schema)
    requires v.Obj?
  {
    && (s.closed ==> forall i | 0 <= i < |v.fields| :: Declares(s, v.fields[i].name))
    && (forall n | n in Needs(rd, s) :: Owns(v, n))
    && forall i | 0 <= i < |s.properties| && Owns(v, s.properties[i].name) ::
         Accepts(rd, Own(v.fields, s.properties[i].name), s.properties[i].schema)
  }

  lemma OwnIsJson(v: Value, name: string)
    requires v.Obj? && IsJson(v) && Owns(v, name)
    ensures IsJson(Own(v.fields, name))
  {
    var i :| 0 <= i < |v.fields| && v.fields[i] == Field(name, Own(v.fields, name));
  }

  lemma CheckerOnProperty(v: Value, p: Property)
    requires v.Obj? && IsJson(v)
    ensures (Lookup(v, p.name) != Undefined ==> Holds(Lookup(v, p.name), p.schema))
            <==> if Owns(v, p.name) then Holds(Own(v.fields, p.name), p.schema) else !RefusesInherited(p)
  {
    if Owns(v, p.name) {
      OwnIsJson(v, p.name);
    }
  }

  lemma CheckerOnRequired(v: Value, r: string)
    requires v.Obj? && IsJson(v)
    ensures Lookup(v, r) != Undefined <==> Owns(v, r) || Inherits(r)
  {
    if Owns(v, r) {
      OwnIsJson(v, r);
    }
  }

  /** Both readings of an object schema have one shape, and differ in the names they need. */
  lemma ReadingOfObjects(rd: Reading, v: Value, s: Schema)
    requires v.Obj? && IsJson(v) && s.kind == Some(ObjectKind)
    ensures Accepts(rd, v, s) <==> Takes(rd, v, s)
  {
    match rd
    case Standard =>
    case Checker =>
      forall r | r in s.required ensures Lookup(v, r) != Undefined <==> Owns(v, r) || Inherits(r) {
        CheckerOnRequired(v, r);
      }
      forall i | 0 <= i < |s.properties|
        ensures (Lookup(v, s.properties[i].name) != Undefined
                 ==> Holds(Lookup(v, s.properties[i].name), s.properties[i].schema))
                <==> if Owns(v, s.properties[i].name) then
                       Holds(Own(v.fields, s.properties[i].name), s.properties[i].schema)
                     else !RefusesInherited(s.properties[i])
      {
        CheckerOnProperty(v, s.properties[i]);
      }
      CheckerTakes(v, s);
  }

  lemma CheckerTakes(v: Value, s: Schema)
    requires v.Obj? && s.kind == Some(ObjectKind)
    requires forall r | r in s.required :: Lookup(v, r) != Undefined <==> Owns(v, r) || Inherits(r)
    requires forall i | 0 <= i < |s.properties| ::
               (Lookup(v, s.properties[i].name) != Undefined
                ==> Holds(Lookup(v, s.properties[i].name), s.properties[i].schema))
               <==> if Owns(v, s.properties[i].name) then
                      Holds(Own(v.fields, s.properties[i].name), s.properties[i].schema)
                    else !RefusesInherited(s.properties[i])
    ensures Holds(v, s) <==> Takes(Checker, v, s)
  {
    if Takes(Checker, v, s) {
      forall i | 0 <= i < |s.properties| && Lookup(v, s.properties[i].name) != Undefined
        ensures Holds(Lookup(v, s.properties[i].name), s.properties[i].schema)
      {
        assert RefusesInherited(s.properties[i]) ==> s.properties[i].name in Needs(Checker, s);
      }
    }
    if Holds(v, s) {
      forall n | n in Needs(Checker, s) ensures Owns(v, n) {
        if n !in s.required || Inherits(n) {
          var i :| 0 <= i < |s.properties| && RefusesInherited(s.properties[i]) && s.properties[i].name == n;
        }
      }
    }
  }

  /* ---------------- what can be satisfied ---------------- */

  function Ceiling(x: real): int { -((-x).Floor) }

  /** Some number, or some whole number, lies within the bounds. */
  predicate HasNumber(s: Schema, whole: bool) {
    s.minimum.None? || s.maximum.None?
    || (if whole then Ceiling(s.minimum.value) as real else s.minimum.value) <= s.maximum.value
  }

  predicate Fits(n: real, s: Schema, whole: bool) {
    (whole ==> IsWhole(n)) && (s.minimum.Some? ==> n >= s.minimum.value) && (s.maximum.Some? ==> n <= s.maximum.value)
  }

  function SomeNumber(s: Schema, whole: bool): (n: real)
    requires HasNumber(s, whole)
    ensures Fits(n, s, whole)
  {
    if s.minimum.Some? then
      if whole then
        CeilingIsNext(s.minimum.value, 0);
        Ceiling(s.minimum.value) as real
      else s.minimum.value
    else if s.maximum.Some? then s.maximum.value.Floor as real
    else 0.0
  }

  lemma CeilingIsNext(x: real, n: int)
    ensures x <= Ceiling(x) as real && (x <= n as real ==> Ceiling(x) <= n)
  {
    if x <= n as real {
      assert (-n) as real <= -x;
    }
  }

  lemma FitsMeansHasNumber(n: real, s: Schema, whole: bool)
    requires Fits(n, s, whole)
    ensures HasNumber(s, whole)
  {
    if whole && s.minimum.Some? {
      CeilingIsNext(s.minimum.value, n.Floor);
    }
  }

  /** Some JSON value under this name is accepted by the schema that declares it, if any. */
  predicate Ownable(rd: Reading, s: Schema, name: string)
    decreases s, 0
  {
    && (s.closed ==> Declares(s, name))
    && forall i | 0 <= i < |s.properties| && s.properties[i].name == name :: Satisfiable(rd, s.properties[i].schema)
  }

  predicate Satisfiable(rd: Reading, s: Schema)
    decreases s, 1
  {
    match s.kind
    case Some(ObjectKind) => forall n | n in Needs(rd, s) :: Ownable(rd, s, n)
    case Some(IntegerKind) => HasNumber(s, true)
    case Some(NumberKind) => HasNumber(s, false)
    case _ => true
  }

  /** A field that an object of this schema may have. */
  ghost predicate GoodField(rd: Reading, s: Schema, f: Field) {
    && IsJson(f.value) && (s.closed ==> Declares(s, f.name))
    && forall i | 0 <= i < |s.properties| && s.properties[i].name == f.name ::
       Accepts(rd, f.value, s.properties[i].schema)
  }

  ghost predicate GoodFields(rd: Reading, s: Schema, fields: seq<Field>) {
    forall k | 0 <= k < |fields| :: GoodField(rd, s, fields[k])
  }

  lemma PrependField(rd: Reading, s: Schema, f: Field, rest: seq<Field>)
    requires GoodFields(rd, s, rest) && GoodFields(rd, s, [f])
    ensures GoodFields(rd, s, [f] + rest)
    ensures forall n :: Owns(Obj([f] + rest), n) <==> n == f.name || Owns(Obj(rest), n)
  {
    var fields := [f] + rest;
    assert fields[0] == [f][0] && forall k | 0 <= k < |rest| :: fields[k + 1] == rest[k];
    forall k | 0 <= k < |fields|
      ensures GoodField(rd, s, fields[k])
    {
      assert GoodField(rd, s, if k == 0 then [f][0] else rest[k - 1]);
    }
  }

  lemma GoodFieldsAreTaken(rd: Reading, s: Schema, fields: seq<Field>)
    requires GoodFields(rd, s, fields) && s.kind == Some(ObjectKind)
    requires forall n | n in Needs(rd, s) :: Owns(Obj(fields), n)
    ensures IsJson(Obj(fields)) && Accepts(rd, Obj(fields), s)
  {
    var v := Obj(fields);
    forall i | 0 <= i < |s.properties| && Owns(v, s.properties[i].name)
      ensures Accepts(rd, Own(fields, s.properties[i].name), s.properties[i].schema)
    {
      var k :| 0 <= k < |fields| && fields[k] == Field(s.properties[i].name, Own(fields, s.properties[i].name));
    }
    ReadingOfObjects(rd, v, s);
  }

  /** One field per name. */
  lemma {:induction false} BuildFields(rd: Reading, s: Schema, names: set<string>) returns (fields: seq<Field>)
    requires DistinctNames(s) && forall n | n in names :: Ownable(rd, s, n)
    ensures GoodFields(rd, s, fields) && forall n :: Owns(Obj(fields), n) <==> n in names
    decreases s, 0, |names|
  {
    if names == {} {
      fields := [];
    } else {
      var n :| n in names;
      assert Ownable(rd, s, n);
      var rest := BuildFields(rd, s, names - {n});
      var f := BuildField(rd, s, n);
      fields := [f] + rest;
      PrependField(rd, s, f, rest);
    }
  }

  lemma {:induction false} BuildField(rd: Reading, s: Schema, n: string) returns (f: Field)
    requires DistinctNames(s) && Ownable(rd, s, n)
    ensures f.name == n && GoodFields(rd, s, [f])
    decreases s, 0, 0
  {
    f := Field(n, Null);
    if i :| 0 <= i < |s.properties| && s.properties[i].name == n {
      var x := Accepted(rd, s.properties[i].schema);
      f := Field(n, x);
      DeclaredOnce(s, i);
    }
    assert GoodField(rd, s, f);
  }

  lemma DeclaredOnce(s: Schema, i: nat)
    requires DistinctNames(s) && i < |s.properties|
    ensures forall j | 0 <= j < |s.properties| && s.properties[j].name == s.properties[i].name :: j == i
  {
  }

  lemma {:induction false} Accepted(rd: Reading, s: Schema) returns (v: Value)
    requires DistinctNames(s) && Satisfiable(rd, s)
    ensures IsJson(v) && Accepts(rd, v, s)
    decreases s, 1, 0
  {
    match s.kind
    case None => v := Null;
    case Some(ObjectKind) =>
      var fields := BuildFields(rd, s, Needs(rd, s));
      v := Obj(fields);
      GoodFieldsAreTaken(rd, s, fields);
    case Some(StringKind) => v := Str("");
    case Some(BooleanKind) => v := Bool(true);
    case Some(ArrayKind) => v := Arr([]);
    case Some(IntegerKind) => v := AcceptedNumber(rd, s, true);
    case Some(NumberKind) => v := AcceptedNumber(rd, s, false);
  }

  lemma AcceptedNumber(rd: Reading, s: Schema, whole: bool) returns (v: Value)
    requires s.kind == Some(if whole then IntegerKind else NumberKind) && HasNumber(s, whole)
    ensures IsJson(v) && Accepts(rd, v, s)
  {
    v := Num(SomeNumber(s, whole));
  }

  lemma {:induction false} OwnedIsOwnable(rd: Reading, v: Value, s: Schema, name: string)
    requires v.Obj? && IsJson(v) && s.kind == Some(ObjectKind) && Accepts(rd, v, s) && Owns(v, name)
    ensures Ownable(rd, s, name)
    decreases s, 0
  {
    ReadingOfObjects(rd, v, s);
    OwnIsJson(v, name);
    forall i | 0 <= i < |s.properties| && s.properties[i].name == name ensures Satisfiable(rd, s.properties[i].schema) {
      AcceptedMeansSatisfiable(rd, Own(v.fields, name), s.properties[i].schema);
    }
    var k :| 0 <= k < |v.fields| && v.fields[k].name == name;
  }

  lemma {:induction false} AcceptedMeansSatisfiable(rd: Reading, v: Value, s: Schema)
    requires IsJson(v) && Accepts(rd, v, s)
    ensures Satisfiable(rd, s)
    decreases s, 1
  {
    match s.kind
    case Some(ObjectKind) =>
      ReadingOfObjects(rd, v, s);
      forall n | n in Needs(rd, s) ensures Ownable(rd, s, n) {
        OwnedIsOwnable(rd, v, s, n);
      }
    case Some(IntegerKind) => FitsMeansHasNumber(v.n, s, true);
    case Some(NumberKind) => FitsMeansHasNumber(v.n, s, false);
    case _ =>
  }

  /** Satisfiability is decided on the schema, for both readings. */
  lemma SatisfiableExactly(rd: Reading, s: Schema)
    requires DistinctNames(s)
    ensures Satisfiable(rd, s) <==> exists v :: IsJson(v) && Accepts(rd, v, s)
  {
    if Satisfiable(rd, s) {
      var v := Accepted(rd, s);
    }
    if v :| IsJson(v) && Accepts(rd, v, s) {
      AcceptedMeansSatisfiable(rd, v, s);
    }
  }

  /* ---------------- where one reading accepts and the other refuses ---------------- */

  /**
   Some JSON value is accepted by this reading alone. Without `type` the checker accepts everything. Of an
   object the other reading needs a name that this one does not, or the two differ on a property; in both
   cases the rest of what this reading needs must be there to be had.
   */
  predicate AcceptsMore(rd: Reading, s: Schema)
    decreases s
  {
    match s.kind
    case None => rd == Checker && !AsksNothing(s)
    case Some(ObjectKind) =>
      || (Satisfiable(rd, s) && exists n | n in Needs(Other(rd), s) :: n !in Needs(rd, s))
      || exists i | 0 <= i < |s.properties| ::
           && AcceptsMore(rd, s.properties[i].schema)
           && forall n | n in Needs(rd, s) && n != s.properties[i].name ::
                Ownable(rd, s, n)
    case Some(ArrayKind) => s.items.Some? && AcceptsMore(rd, s.items.value)
    case Some(_) => false
  }

  ghost predicate TellsApart(rd: Reading, v: Value, s: Schema) {
    IsJson(v) && Accepts(rd, v, s) && !Accepts(Other(rd), v, s)
  }

  lemma {:induction false} AcceptedByOne(rd: Reading, s: Schema) returns (v: Value)
    requires DistinctNames(s) && AcceptsMore(rd, s)
    ensures TellsApart(rd, v, s)
    decreases s
  {
    match s.kind
    case None => v := Refute(s);
    case Some(ArrayKind) =>
      var w := AcceptedByOne(rd, s.items.value);
      v := Arr([w]);
      assert v.items[0] == w;
    case Some(ObjectKind) =>
      if n :| n in Needs(Other(rd), s) && n !in Needs(rd, s) && Satisfiable(rd, s) {
        v := WithoutName(rd, s, n);
      } else {
        var i :| 0 <= i < |s.properties| && AcceptsMore(rd, s.properties[i].schema)
          && forall n | n in Needs(rd, s) && n != s.properties[i].name :: Ownable(rd, s, n);
        var x := AcceptedByOne(rd, s.properties[i].schema);
        v := WithField(rd, s, i, x);
      }
  }

  /** An object with just the names this reading needs, `n` not among them. */
  lemma WithoutName(rd: Reading, s: Schema, n: string) returns (v: Value)
    requires DistinctNames(s) && s.kind == Some(ObjectKind) && Satisfiable(rd, s)
    requires n in Needs(Other(rd), s) && n !in Needs(rd, s)
    ensures TellsApart(rd, v, s)
  {
    var fields := BuildFields(rd, s, Needs(rd, s));
    v := Obj(fields);
    GoodFieldsAreTaken(rd, s, fields);
    ReadingOfObjects(Other(rd), v, s);
    assert !Owns(v, n);
  }

  /** An object whose property `i` tells the readings apart. */
  lemma WithField(rd: Reading, s: Schema, i: nat, x: Value) returns (v: Value)
    requires DistinctNames(s) && s.kind == Some(ObjectKind) && i < |s.properties|
             && TellsApart(rd, x, s.properties[i].schema)
    requires forall n | n in Needs(rd, s) && n != s.properties[i].name :: Ownable(rd, s, n)
    ensures TellsApart(rd, v, s)
  {
    var name := s.properties[i].name;
    var rest := BuildFields(rd, s, Needs(rd, s) - {name});
    var f := Field(name, x);
    DeclaredOnce(s, i);
    assert Declares(s, name);
    assert GoodField(rd, s, f);
    PrependField(rd, s, f, rest);
    v := Obj([f] + rest);
    GoodFieldsAreTaken(rd, s, [f] + rest);
    FirstFieldDecides(Other(rd), s, i, x, rest);
  }

  lemma FirstFieldDecides(rd: Reading, s: Schema, i: nat, x: Value, rest: seq<Field>)
    requires s.kind == Some(ObjectKind) && i < |s.properties| && !Accepts(rd, x, s.properties[i].schema)
    requires IsJson(Obj([Field(s.properties[i].name, x)] + rest))
    ensures !Accepts(rd, Obj([Field(s.properties[i].name, x)] + rest), s)
  {
    var v := Obj([Field(s.properties[i].name, x)] + rest);
    assert v.fields[0].name == s.properties[i].name && Own(v.fields, s.properties[i].name) == x;
    ReadingOfObjects(rd, v, s);
  }

  lemma {:induction false} ToldApartMeansMore(rd: Reading, v: Value, s: Schema)
    requires TellsApart(rd, v, s)
    ensures AcceptsMore(rd, s)
    decreases s
  {
    match s.kind
    case None =>
      if AsksNothing(s) {
        AsksNothingAcceptsAll(v, s);
      }
    case Some(ArrayKind) =>
      var i :| 0 <= i < |v.items| && !Accepts(Other(rd), v.items[i], s.items.value);
      ToldApartMeansMore(rd, v.items[i], s.items.value);
    case Some(ObjectKind) =>
      ReadingOfObjects(rd, v, s);
      ReadingOfObjects(Other(rd), v, s);
      forall n | n in Needs(rd, s) ensures Ownable(rd, s, n) {
        OwnedIsOwnable(rd, v, s, n);
      }
      if forall n | n in Needs(Other(rd), s) :: n in Needs(rd, s) {
        var i :| 0 <= i < |s.properties| && Owns(v, s.properties[i].name)
          && !Accepts(Other(rd), Own(v.fields, s.properties[i].name), s.properties[i].schema);
        OwnIsJson(v, s.properties[i].name);
        ToldApartMeansMore(rd, Own(v.fields, s.properties[i].name), s.properties[i].schema);
      }
    case Some(_) =>
  }

  /** Exactly which schemas have a JSON value that one reading accepts and the other refuses. */
  lemma AcceptsMoreExactly(rd: Reading, s: Schema)
    requires DistinctNames(s)
    ensures AcceptsMore(rd, s) <==> exists v :: TellsApart(rd, v, s)
  {
    if AcceptsMore(rd, s) {
      var v := AcceptedByOne(rd, s);
    }
    if v :| TellsApart(rd, v, s) {
      ToldApartMeansMore(rd, v, s);
    }
  }

  /* ---------------- main results ---------------- */

  /** On every JSON value the checker finds nothing exactly when the value conforms to the standard. */
  ghost predicate MeetsTheStandard(s: Schema) {
    forall v | IsJson(v) :: ValidateAgainst(s, v).None? <==> Conforms(v, s)
  }

  lemma NoMoreMeansTheStandard(s: Schema)
    requires !AcceptsMore(Checker, s) && !AcceptsMore(Standard, s)
    ensures MeetsTheStandard(s)
  {
    forall v | IsJson(v) ensures ValidateAgainst(s, v).None? <==> Conforms(v, s) {
      CheckExactly(v, s, []);
      if Holds(v, s) != Conforms(v, s) {
        ToldApartMeansMore(if Holds(v, s) then Checker else Standard, v, s);
      }
    }
  }

  /** The checker meets the standard on a schema exactly when neither reading accepts more. */
  lemma CheckMeetsTheStandardExactly(s: Schema)
    requires DistinctNames(s)
    ensures MeetsTheStandard(s) <==> !AcceptsMore(Checker, s) && !AcceptsMore(Standard, s)
  {
    if !AcceptsMore(Checker, s) && !AcceptsMore(Standard, s) {
      NoMoreMeansTheStandard(s);
    } else {
      var v := AcceptedByOne(if AcceptsMore(Checker, s) then Checker else Standard, s);
      CheckExactly(v, s, []);
    }
  }

  /** Without `type` that is so exactly when the schema asks nothing. */
  lemma UntypedMeetsTheStandardExactly(s: Schema)
    requires s.kind.None? && DistinctNames(s)
    ensures MeetsTheStandard(s) <==> AsksNothing(s)
  {
    CheckMeetsTheStandardExactly(s);
  }

  /** A schema without `type` asks nothing, and no name is one that every object inherits. */
  predicate Plain(s: Schema)
    decreases s
  {
    match s.kind
    case None => AsksNothing(s)
    case Some(ObjectKind) =>
      && (forall r | r in s.required :: !Inherits(r))
      && forall i | 0 <= i < |s.properties| :: !Inherits(s.properties[i].name) && Plain(s.properties[i].schema)
    case Some(ArrayKind) => s.items.Some? ==> Plain(s.items.value)
    case Some(_) => true
  }

  lemma {:induction false} PlainAcceptsNoMore(rd: Reading, s: Schema)
    requires Plain(s)
    ensures !AcceptsMore(rd, s)
    decreases s
  {
    match s.kind
    case None =>
    case Some(ObjectKind) =>
      assert Needs(Checker, s) == Needs(Standard, s);
      forall i | 0 <= i < |s.properties| ensures !AcceptsMore(rd, s.properties[i].schema) {
        PlainAcceptsNoMore(rd, s.properties[i].schema);
      }
    case Some(ArrayKind) =>
      if s.items.Some? {
        PlainAcceptsNoMore(rd, s.items.value);
      }
    case Some(_) =>
  }

  /** So on plain schemas the checker decides conformance to the standard. */
  lemma PlainMeetsTheStandard(s: Schema)
    requires Plain(s)
    ensures MeetsTheStandard(s)
  {
    PlainAcceptsNoMore(Checker, s);
    PlainAcceptsNoMore(Standard, s);
    NoMoreMeansTheStandard(s);
  }

  /** Declared with a schema that what every object inherits under the name does not satisfy. */
  predicate RefusedName(s: Schema, n: string) {
    exists i | 0 <= i < |s.properties| :: s.properties[i].name == n && RefusesInherited(s.properties[i])
  }

  /** The two readings ask for the same inherited names. */
  predicate InheritedNamesAgree(s: Schema) {
    forall n | n in INHERITED + {PROTO} ::
      n in s.required <==> RefusedName(s, n)
  }

  /**
   What inherited names do to an object schema whose properties meet the standard and that some conforming
   object satisfies which owns the names concerned: the checker meets the standard exactly when each
   inherited name is required if and only if it is declared with a schema its inherited value does not satisfy.
   */
  lemma InheritedNamesExactly(s: Schema, w: Value)
    requires DistinctNames(s) && s.kind == Some(ObjectKind)
    requires forall i | 0 <= i < |s.properties| :: MeetsTheStandard(s.properties[i].schema)
    requires w.Obj? && IsJson(w) && Conforms(w, s) && forall n | n in Needs(Checker, s) && Inherits(n) :: Owns(w, n)
    ensures MeetsTheStandard(s) <==> InheritedNamesAgree(s)
  {
    forall i | 0 <= i < |s.properties|
      ensures !AcceptsMore(Checker, s.properties[i].schema) && !AcceptsMore(Standard, s.properties[i].schema)
    {
      CheckMeetsTheStandardExactly(s.properties[i].schema);
    }
    WitnessSatisfies(s, w);
    NeedsAgreeExactly(s);
    CheckMeetsTheStandardExactly(s);
  }

  lemma NeedsAgreeExactly(s: Schema)
    ensures Needs(Checker, s) == Needs(Standard, s) <==> InheritedNamesAgree(s)
  {
    forall n ensures n in Needs(Checker, s) <==> if Inherits(n) then RefusedName(s, n) else n in Needs(Standard, s) {
      if RefusedName(s, n) {
        var i :| 0 <= i < |s.properties| && s.properties[i].name == n && RefusesInherited(s.properties[i]);
      }
    }
  }

  lemma WitnessSatisfies(s: Schema, w: Value)
    requires s.kind == Some(ObjectKind) && w.Obj? && IsJson(w) && Conforms(w, s)
    requires forall i | 0 <= i < |s.properties| :: MeetsTheStandard(s.properties[i].schema)
    requires forall n | n in Needs(Checker, s) && Inherits(n) :: Owns(w, n)
    ensures Satisfiable(Checker, s) && Satisfiable(Standard, s)
  {
    ReadingOfObjects(Standard, w, s);
    forall i | 0 <= i < |s.properties| && Owns(w, s.properties[i].name)
      ensures Holds(Own(w.fields, s.properties[i].name), s.properties[i].schema)
    {
      OwnIsJson(w, s.properties[i].name);
      CheckExactly(Own(w.fields, s.properties[i].name), s.properties[i].schema, []);
      assert MeetsTheStandard(s.properties[i].schema);
    }
    ReadingOfObjects(Checker, w, s);
    AcceptedMeansSatisfiable(Checker, w, s);
    AcceptedMeansSatisfiable(Standard, w, s);
  }

  /**
   The empty object shows both departures: requiring an inherited name alone, the checker accepts it against
   the standard; declaring one with a type its inherited value lacks, the checker refuses it.
   */
  lemma EmptyObjectTellsApart(n: string, kind: Kind)
    requires n in INHERITED + {PROTO}
    ensures TellsApart(Checker, Obj([]), Schema(Some(ObjectKind), [], [n], false, None, None, None))
    ensures !HasKind(InheritedValue(n), kind) ==>
              TellsApart(Standard, Obj([]),
                         Schema(Some(ObjectKind), [Property(n, Schema(Some(kind), [], [], false, None, None, None))],
                                                   [], false, None, None, None))
  {
    var v, t := Obj([]), Schema(Some(kind), [], [], false, None, None, None);
    var required := Schema(Some(ObjectKind), [], [n], false, None, None, None);
    var declared := Schema(Some(ObjectKind), [Property(n, t)], [], false, None, None, None);
    assert n in required.required && !Owns(v, n);
    if !HasKind(InheritedValue(n), kind) {
      assert declared.properties[0] == Property(n, t) && RefusesInherited(declared.properties[0]);
      assert n in Needs(Checker, declared);
      ReadingOfObjects(Checker, v, declared);
    }
  }
}
