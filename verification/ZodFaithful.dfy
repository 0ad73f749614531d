/** The emitted validators accept exactly what the schemas accept, and where they do not. */
module ZodFaithful {
  import opened Basics
  import opened JsonTree
  import opened ZodCompiler

  /** A value as a parser hands it over: no object has a key twice. */
  ghost predicate Proper(v: Json) {
    match v
    case Arr(items) => forall i :: 0 <= i < |items| ==> Proper(items[i])
    case Obj(fields) =>
      && (forall i, j :: 0 <= i < j < |fields| ==> fields[i].name != fields[j].name)
      && forall i :: 0 <= i < |fields| ==> Proper(fields[i].value)
    case _ => true
  }

  /** The values the property `key` may take, when an inline enum lists them. */
  function ListedValues(ps: seq<Property>, key: string): seq<Json> {
    if ps == [] then []
    else if ps[0].name == key && ps[0].schema.ref == "" && ps[0].schema.values.Some?
    then ps[0].schema.values.value
    else ListedValues(ps[1..], key)
  }

  predicate IsInlineObject(s: Schema) {
    s.ref == "" && s.values.None? && s.oneOf.Absent? && s.typ == Some("object") && s.properties.Properties?
  }

  /** The values of `key` this schema lets through. */
  function KeyEnum(doc: Document, n: nat, s: Schema, key: string): seq<Json>
    requires n <= |doc|
    decreases n, s
  {
    if s.ref != "" then
      var i := FindSchema(doc, n, LastSegment(s.ref));
      if i.Some? then KeyEnum(doc, i.value, doc[i.value].schema, key) else []
    else if IsInlineObject(s) then ListedValues(s.properties.value, key)
    else []
  }

  /** An object that must carry `key`, with one of a listed set of values. */
  predicate IsKeyed(doc: Document, n: nat, s: Schema, key: string)
    requires n <= |doc|
    decreases n, s
  {
    if s.ref != "" then
      var i := FindSchema(doc, n, LastSegment(s.ref));
      i.Some? && IsKeyed(doc, i.value, doc[i.value].schema, key)
    else
      IsInlineObject(s) && key in s.required && ListedValues(s.properties.value, key) != []
  }

  /**
   * Where the schema asks for a whole number, the value has none too large for Zod's `int`. Of a
   * discriminated union only the member the value names is asked.
   */
  ghost predicate InRange(doc: Document, n: nat, s: Schema, v: Json)
    requires n <= |doc|
    decreases n, s
  {
    if s.ref != "" then
      var i := FindSchema(doc, n, LastSegment(s.ref));
      i.Some? ==> InRange(doc, i.value, doc[i.value].schema, v)
    else
      && (s.values.None? && s.typ == Some("integer") && v.Num? && IsIntegral(v.n) ==> IsSafeInteger(v.n))
      && (s.oneOf.Listed? ==>
            forall i :: 0 <= i < |s.oneOf.value| ==>
              (s.discriminator == "" || HasKey(v, s.discriminator, KeyEnum(doc, n, s.oneOf.value[i], s.discriminator))) ==>
              InRange(doc, n, s.oneOf.value[i], v))
      && (v.Arr? && s.items.Items? ==> forall i :: 0 <= i < |v.items| ==> InRange(doc, n, s.items.value, v.items[i]))
      && (v.Obj? && s.properties.Properties? ==>
            forall k, i :: 0 <= k < |s.properties.value| && 0 <= i < |v.fields|
                           && v.fields[i].name == s.properties.value[k].name ==>
              InRange(doc, n, s.properties.value[k].schema, v.fields[i].value))
      && (v.Obj? && s.extra.Typed? ==>
            forall i :: 0 <= i < |v.fields| && !DeclaresProperty(s, v.fields[i].name) ==>
              InRange(doc, n, s.extra.schema, v.fields[i].value))
  }

  /** Every member is told apart by its own values of `key`. */
  ghost predicate Discriminates(doc: Document, n: nat, members: seq<Schema>, key: string)
    requires n <= |doc|
  {
    && (forall i :: 0 <= i < |members| ==> IsKeyed(doc, n, members[i], key))
    && forall i, j, w :: 0 <= i < j < |members| ==>
        !(w in KeyEnum(doc, n, members[i], key) && w in KeyEnum(doc, n, members[j], key))
  }

  /** No value within the range of every member is taken by two of them. */
  ghost predicate Exclusive(doc: Document, tolerant: set<string>, n: nat, members: seq<Schema>, lenient: bool)
    requires n <= |doc|
  {
    forall i, j, v :: 0 <= i < j < |members| && Proper(v) && AllInRange(doc, n, members, v) ==>
      !(Accepts(doc, tolerant, n, members[i], lenient, v) && Accepts(doc, tolerant, n, members[j], lenient, v))
  }

  ghost predicate AllInRange(doc: Document, n: nat, members: seq<Schema>, v: Json)
    requires n <= |doc|
  {
    forall i :: 0 <= i < |members| ==> InRange(doc, n, members[i], v)
  }

  predicate DeclaresRequired(s: Schema) {
    forall r :: r in s.required ==> DeclaresProperty(s, r)
  }

  /** The constructs the generator renders with their meaning intact. */
  ghost predicate Covered(doc: Document, tolerant: set<string>, n: nat, s: Schema, lenient: bool)
    requires n <= |doc|
    decreases s
  {
    if s.ref != "" then FindSchema(doc, n, LastSegment(s.ref)).Some?
    else
      && s.anyOf.Absent? && s.allOf.Absent?
      && if s.values.Some? then
           && s.oneOf.Absent?
           && (s.typ.None? || s.typ == Some("string"))
           && forall w :: w in s.values.value ==> w.Str?
         else if s.oneOf.Listed? then
           && s.typ.None? && s.required == [] && s.properties.NoProperties? && s.items.NoItems? && s.extra.Unstated?
           && (forall i :: 0 <= i < |s.oneOf.value| ==> Covered(doc, tolerant, n, s.oneOf.value[i], lenient))
           && if s.discriminator != "" then Discriminates(doc, n, s.oneOf.value, s.discriminator)
              else Exclusive(doc, tolerant, n, s.oneOf.value, lenient)
         else if s.typ == Some("array") then
           s.items.Items? ==> Covered(doc, tolerant, n, s.items.value, lenient)
         else if s.typ == Some("object") then
           && DeclaresRequired(s)
           && (s.properties.NoProperties? ==> s.extra != Stated(false))
           && (s.extra.Typed? ==> s.properties.NoProperties? && Covered(doc, tolerant, n, s.extra.schema, lenient))
           && (s.properties.Properties? ==>
                 forall k :: 0 <= k < |s.properties.value| ==>
                   Covered(doc, tolerant, n, s.properties.value[k].schema, lenient))
         else
           s.typ in {Some("string"), Some("number"), Some("integer"), Some("boolean")}
  }

  /** `prog` is what the generator emits for `doc`. */
  ghost predicate IsRendered(doc: Document, tolerant: set<string>, prog: seq<ZConst>) {
    && |prog| == |doc|
    && DistinctIdents(doc)
    && forall i :: 0 <= i < |doc| ==>
        && prog[i].ident == ConstName(doc[i].name)
        && Compile(doc[i].schema, doc[i].name in tolerant) == Success(prog[i].zod)
  }

  /** The first n schemas are all covered, each in its own mode. */
  ghost predicate AllCovered(doc: Document, tolerant: set<string>, n: nat)
    requires n <= |doc|
  {
    forall i :: 0 <= i < n ==> Covered(doc, tolerant, i, doc[i].schema, doc[i].name in tolerant)
  }

  // ---------------------------------------------------------------- names and references

  /** A reference to a declared schema resolves to that schema's own constant. */
  lemma {:induction false} SameIndex(doc: Document, tolerant: set<string>, prog: seq<ZConst>, n: nat, name: string)
    requires IsRendered(doc, tolerant, prog) && n <= |doc|
    requires FindSchema(doc, n, name).Some?
    ensures FindConst(prog, n, ConstName(name)) == FindSchema(doc, n, name)
  {
    hide Compile, ConstName;
    var i := FindSchema(doc, n, name).value;
    var j := FindConst(prog, n, ConstName(name));
    assert j.Some?;
  }

  lemma {:induction false} SameShapeValues(ps: seq<Property>, shape: seq<ZField>, key: string, lenient: bool)
    requires |shape| == |ps|
    requires forall k :: 0 <= k < |ps| ==>
               shape[k].name == ps[k].name && Compile(ps[k].schema, lenient) == Success(shape[k].zod)
    ensures ShapeValues(shape, key) == ListedValues(ps, key)
  {
    hide Compile;
    if ps != [] {
      forall k | 0 <= k < |ps| - 1
        ensures shape[1..][k].name == ps[1..][k].name && Compile(ps[1..][k].schema, lenient) == Success(shape[1..][k].zod)
      {
        assert shape[1..][k] == shape[k + 1];
      }
      SameShapeValues(ps[1..], shape[1..], key, lenient);
      SameShapeStep(ps, shape, key, lenient);
    }
  }

  lemma {:induction false} SameShapeStep(ps: seq<Property>, shape: seq<ZField>, key: string, lenient: bool)
    requires |shape| == |ps| > 0
    requires shape[0].name == ps[0].name && Compile(ps[0].schema, lenient) == Success(shape[0].zod)
    requires ShapeValues(shape[1..], key) == ListedValues(ps[1..], key)
    ensures ShapeValues(shape, key) == ListedValues(ps, key)
  {
    hide CompileAll, CompileShape;
  }

  /** The union's lookup table is read off the same enums as the schema's. */
  lemma {:induction false} SameKeyValues(doc: Document, tolerant: set<string>, prog: seq<ZConst>, n: nat,
                                         s: Schema, lenient: bool, key: string)
    requires IsRendered(doc, tolerant, prog) && n <= |doc|
    requires Compile(s, lenient).Success?
    requires IsKeyed(doc, n, s, key)
    ensures KeyValues(prog, n, Compile(s, lenient).value, key) == KeyEnum(doc, n, s, key)
    decreases n, s
  {
    hide ConstName, LastSegment, DistinctIdents, FindConst, FindSchema;
    if s.ref != "" {
      SameIndex(doc, tolerant, prog, n, LastSegment(s.ref));
      var i := FindSchema(doc, n, LastSegment(s.ref)).value;
      SameKeyValues(doc, tolerant, prog, i, doc[i].schema, doc[i].name in tolerant, key);
    } else {
      hide ShapeValues, ListedValues;
      var shape := CompileShape(s.properties.value, s.required, lenient).value;
      SameShapeValues(s.properties.value, shape, key, lenient);
    }
  }

  lemma {:induction false} ListedIsDeclared(ps: seq<Property>, key: string) returns (k: nat)
    requires ListedValues(ps, key) != []
    ensures k < |ps| && ps[k].name == key && ps[k].schema.ref == ""
    ensures ps[k].schema.values == Some(ListedValues(ps, key))
  {
    if ps[0].name == key && ps[0].schema.ref == "" && ps[0].schema.values.Some? {
      k := 0;
    } else {
      k := ListedIsDeclared(ps[1..], key);
      k := k + 1;
    }
  }

  /** A keyed schema only takes objects that carry one of its values. */
  lemma {:induction false} KeyedCarriesKey(doc: Document, tolerant: set<string>, n: nat, s: Schema, lenient: bool,
                                           key: string, v: Json)
    requires n <= |doc| && IsKeyed(doc, n, s, key) && Accepts(doc, tolerant, n, s, lenient, v)
    ensures HasKey(v, key, KeyEnum(doc, n, s, key))
    decreases n, s
  {
    hide FindSchema, LastSegment;
    if s.ref != "" {
      var i := FindSchema(doc, n, LastSegment(s.ref)).value;
      KeyedCarriesKey(doc, tolerant, i, doc[i].schema, doc[i].name in tolerant, key, v);
    } else {
      hide ListedValues;
      var ps := s.properties.value;
      var k := ListedIsDeclared(ps, key);
      assert Present(v.fields, key);
      var f :| f in v.fields && f.name == key;
      var i :| 0 <= i < |v.fields| && v.fields[i] == f;
      assert Accepts(doc, tolerant, n, ps[k].schema, lenient, v.fields[i].value);
    }
  }

  // ---------------------------------------------------------------- node by node

  /** The expression for `s` and `s` itself say the same of `v`. */
  ghost predicate Agree(doc: Document, tolerant: set<string>, prog: seq<ZConst>, n: nat, s: Schema, lenient: bool, v: Json)
    requires n <= |doc| && |prog| == |doc| && Compile(s, lenient).Success?
  {
    ZodAccepts(prog, n, Compile(s, lenient).value, v) <==> Accepts(doc, tolerant, n, s, lenient, v)
  }

  /** `oneOf` and nothing beside it but, perhaps, its discriminator. */
  predicate IsSoleUnion(s: Schema) {
    && s.ref == "" && s.values.None? && s.oneOf.Listed? && s.anyOf.Absent? && s.allOf.Absent? && s.typ.None?
    && s.required == [] && s.properties.NoProperties? && s.items.NoItems? && s.extra.Unstated?
  }

  lemma {:induction false} SoleUnion(doc: Document, tolerant: set<string>, n: nat, s: Schema, lenient: bool, v: Json)
    requires n <= |doc| && IsSoleUnion(s)
    ensures Accepts(doc, tolerant, n, s, lenient, v) <==> TakesExactlyOne(doc, tolerant, n, s.oneOf.value, lenient, v)
  {
    hide TakesExactlyOne;
  }

  lemma {:induction false} SoleUnionTerm(s: Schema, lenient: bool)
    requires IsSoleUnion(s) && Compile(s, lenient).Success?
    ensures CompileAll(s.oneOf.value, lenient).Success?
    ensures var zs := CompileAll(s.oneOf.value, lenient).value;
            Compile(s, lenient).value ==
              if s.discriminator != "" then ZDiscriminated(s.discriminator, zs) else ZUnion(zs)
  {
    hide CompileAll;
  }

  /** At most one member takes the value. */
  ghost predicate NoTwoTake(doc: Document, tolerant: set<string>, n: nat, ms: seq<Schema>, lenient: bool, v: Json)
    requires n <= |doc|
  {
    forall i, j :: 0 <= i < j < |ms| ==>
      !(Accepts(doc, tolerant, n, ms[i], lenient, v) && Accepts(doc, tolerant, n, ms[j], lenient, v))
  }

  lemma {:induction false} OneOrAny(doc: Document, tolerant: set<string>, n: nat, ms: seq<Schema>, lenient: bool, v: Json)
    requires n <= |doc|
    ensures var any := exists i :: 0 <= i < |ms| && Accepts(doc, tolerant, n, ms[i], lenient, v);
            (TakesExactlyOne(doc, tolerant, n, ms, lenient, v) <==> any) <==> NoTwoTake(doc, tolerant, n, ms, lenient, v)
  {
    hide Accepts, TakesExactlyOne, NoTwoTake;
    if i, j :| 0 <= i < j < |ms| && Accepts(doc, tolerant, n, ms[i], lenient, v) && Accepts(doc, tolerant, n, ms[j], lenient, v) {
      TwoTake(doc, tolerant, n, ms, lenient, v, i, j);
    } else {
      AtMostOneTakes(doc, tolerant, n, ms, lenient, v);
    }
  }

  lemma {:induction false} TwoTake(doc: Document, tolerant: set<string>, n: nat, ms: seq<Schema>, lenient: bool, v: Json,
                                   i: nat, j: nat)
    requires n <= |doc| && i < j < |ms|
    requires Accepts(doc, tolerant, n, ms[i], lenient, v) && Accepts(doc, tolerant, n, ms[j], lenient, v)
    ensures !TakesExactlyOne(doc, tolerant, n, ms, lenient, v) && !NoTwoTake(doc, tolerant, n, ms, lenient, v)
  {
    hide Accepts;
  }

  lemma {:induction false} AtMostOneTakes(doc: Document, tolerant: set<string>, n: nat, ms: seq<Schema>, lenient: bool, v: Json)
    requires n <= |doc|
    requires forall i, j :: 0 <= i < j < |ms| ==>
      !(Accepts(doc, tolerant, n, ms[i], lenient, v) && Accepts(doc, tolerant, n, ms[j], lenient, v))
    ensures NoTwoTake(doc, tolerant, n, ms, lenient, v)
    ensures TakesExactlyOne(doc, tolerant, n, ms, lenient, v) <==>
            exists i :: 0 <= i < |ms| && Accepts(doc, tolerant, n, ms[i], lenient, v)
  {
    hide Accepts;
  }

  /** A plain union whose members agree with their expressions agrees exactly when no two members take the value. */
  lemma {:induction false} PlainUnionExact(doc: Document, tolerant: set<string>, prog: seq<ZConst>, n: nat,
                                           s: Schema, lenient: bool, v: Json)
    requires n <= |doc| && |prog| == |doc| && IsSoleUnion(s) && s.discriminator == ""
    requires Compile(s, lenient).Success?
    requires forall i :: 0 <= i < |s.oneOf.value| ==>
               Compile(s.oneOf.value[i], lenient).Success? && Agree(doc, tolerant, prog, n, s.oneOf.value[i], lenient, v)
    ensures Agree(doc, tolerant, prog, n, s, lenient, v) <==> NoTwoTake(doc, tolerant, n, s.oneOf.value, lenient, v)
  {
    hide Compile, Accepts, ZodAccepts, TakesExactlyOne, NoTwoTake;
    SoleUnion(doc, tolerant, n, s, lenient, v);
    SoleUnionTerm(s, lenient);
    AnyMember(doc, tolerant, prog, n, s.oneOf.value, CompileAll(s.oneOf.value, lenient).value, lenient, v);
    OneOrAny(doc, tolerant, n, s.oneOf.value, lenient, v);
  }

  lemma {:induction false} AnyMember(doc: Document, tolerant: set<string>, prog: seq<ZConst>, n: nat,
                                     ms: seq<Schema>, zs: seq<Zod>, lenient: bool, v: Json)
    requires n <= |doc| && |prog| == |doc| && |zs| == |ms|
    requires forall i :: 0 <= i < |ms| ==>
               Compile(ms[i], lenient) == Success(zs[i]) && Agree(doc, tolerant, prog, n, ms[i], lenient, v)
    ensures ZodAccepts(prog, n, ZUnion(zs), v) <==>
            exists i :: 0 <= i < |ms| && Accepts(doc, tolerant, n, ms[i], lenient, v)
  {
    hide Compile, Accepts;
    forall i | 0 <= i < |ms|
      ensures ZodAccepts(prog, n, zs[i], v) <==> Accepts(doc, tolerant, n, ms[i], lenient, v)
    {
      assert Agree(doc, tolerant, prog, n, ms[i], lenient, v);
    }
  }

  /** With keyed members told apart by their values, at most one can take a value with unique keys. */
  lemma {:induction false} DiscriminatedNoTwo(doc: Document, tolerant: set<string>, n: nat, ms: seq<Schema>, key: string,
                                              lenient: bool, v: Json)
    requires n <= |doc| && Discriminates(doc, n, ms, key) && Proper(v)
    ensures NoTwoTake(doc, tolerant, n, ms, lenient, v)
  {
    hide Accepts, KeyEnum, IsKeyed;
    forall i, j | 0 <= i < j < |ms|
      ensures !(Accepts(doc, tolerant, n, ms[i], lenient, v) && Accepts(doc, tolerant, n, ms[j], lenient, v))
    {
      if Accepts(doc, tolerant, n, ms[i], lenient, v) && Accepts(doc, tolerant, n, ms[j], lenient, v) {
        KeyedCarriesKey(doc, tolerant, n, ms[i], lenient, key, v);
        KeyedCarriesKey(doc, tolerant, n, ms[j], lenient, key, v);
        OneValueOfKey(v, key, KeyEnum(doc, n, ms[i], key), KeyEnum(doc, n, ms[j], key));
      }
    }
  }

  lemma {:induction false} OneValueOfKey(v: Json, key: string, a: seq<Json>, b: seq<Json>)
    requires Proper(v) && HasKey(v, key, a) && HasKey(v, key, b)
    ensures exists w :: w in a && w in b
  {
    var f :| f in v.fields && f.name == key && f.value in a;
    var g :| g in v.fields && g.name == key && g.value in b;
    var i :| 0 <= i < |v.fields| && v.fields[i] == f;
    var j :| 0 <= j < |v.fields| && v.fields[j] == g;
    assert i == j;
  }

  /** The member a discriminated union picks is the only one that could take the value. */
  lemma {:induction false} PicksWhoTakes(doc: Document, tolerant: set<string>, prog: seq<ZConst>, n: nat,
                                         ms: seq<Schema>, zs: seq<Zod>, key: string, lenient: bool, v: Json, i: nat)
    requires |prog| == |doc| && IsRendered(doc, tolerant, prog) && n <= |doc| && Discriminates(doc, n, ms, key) && Proper(v)
    requires |zs| == |ms| && forall k :: 0 <= k < |ms| ==> Compile(ms[k], lenient) == Success(zs[k])
    requires i < |ms| && Accepts(doc, tolerant, n, ms[i], lenient, v)
    ensures Picks(prog, n, zs, key, v, i)
  {
    hide Accepts, KeyEnum, IsKeyed, KeyValues, Compile, HasKey, IsRendered, Proper;
    forall k | 0 <= k < |ms| ensures KeyValues(prog, n, zs[k], key) == KeyEnum(doc, n, ms[k], key) {
      SameKeyValues(doc, tolerant, prog, n, ms[k], lenient, key);
    }
    KeyedCarriesKey(doc, tolerant, n, ms[i], lenient, key, v);
    forall j | 0 <= j < i ensures !HasKey(v, key, KeyValues(prog, n, zs[j], key)) {
      if HasKey(v, key, KeyValues(prog, n, zs[j], key)) {
        OneValueOfKey(v, key, KeyEnum(doc, n, ms[j], key), KeyEnum(doc, n, ms[i], key));
      }
    }
  }

  lemma {:induction false} DiscriminatedAgrees(doc: Document, tolerant: set<string>, prog: seq<ZConst>, n: nat,
                                               s: Schema, lenient: bool, v: Json)
    requires |prog| == |doc| && IsRendered(doc, tolerant, prog) && n <= |doc| && IsSoleUnion(s) && s.discriminator != ""
    requires Compile(s, lenient).Success? && Proper(v)
    requires Discriminates(doc, n, s.oneOf.value, s.discriminator)
    requires forall i :: 0 <= i < |s.oneOf.value| ==> Compile(s.oneOf.value[i], lenient).Success?
    requires forall i :: 0 <= i < |s.oneOf.value|
                         && HasKey(v, s.discriminator, KeyEnum(doc, n, s.oneOf.value[i], s.discriminator)) ==>
               Agree(doc, tolerant, prog, n, s.oneOf.value[i], lenient, v)
    ensures Agree(doc, tolerant, prog, n, s, lenient, v)
  {
    hide Compile, Accepts, TakesExactlyOne, Discriminates, Proper, IsRendered, Picks, NoTwoTake, KeyEnum, HasKey;
    var ms, key := s.oneOf.value, s.discriminator;
    SoleUnion(doc, tolerant, n, s, lenient, v);
    SoleUnionTerm(s, lenient);
    DiscriminatedNoTwo(doc, tolerant, n, ms, key, lenient, v);
    OneOrAny(doc, tolerant, n, ms, lenient, v);
    var zs := CompileAll(ms, lenient).value;
    PickedMember(doc, tolerant, prog, n, ms, zs, key, lenient, v);
  }

  lemma {:induction false} PickedMember(doc: Document, tolerant: set<string>, prog: seq<ZConst>, n: nat,
                                        ms: seq<Schema>, zs: seq<Zod>, key: string, lenient: bool, v: Json)
    requires |prog| == |doc| && IsRendered(doc, tolerant, prog) && n <= |doc| && Discriminates(doc, n, ms, key) && Proper(v)
    requires |zs| == |ms|
    requires forall i :: 0 <= i < |ms| ==> Compile(ms[i], lenient) == Success(zs[i])
    requires forall i :: 0 <= i < |ms| && HasKey(v, key, KeyEnum(doc, n, ms[i], key)) ==>
               Agree(doc, tolerant, prog, n, ms[i], lenient, v)
    ensures ZodAccepts(prog, n, ZDiscriminated(key, zs), v) <==>
            exists i :: 0 <= i < |ms| && Accepts(doc, tolerant, n, ms[i], lenient, v)
  {
    hide Compile, Accepts, Proper, IsRendered, HasKey, KeyEnum, KeyValues, IsKeyed;
    forall i | 0 <= i < |ms| ensures KeyValues(prog, n, zs[i], key) == KeyEnum(doc, n, ms[i], key) {
      SameKeyValues(doc, tolerant, prog, n, ms[i], lenient, key);
    }
    forall i | 0 <= i < |ms| && HasKey(v, key, KeyEnum(doc, n, ms[i], key))
      ensures ZodAccepts(prog, n, zs[i], v) <==> Accepts(doc, tolerant, n, ms[i], lenient, v)
    {
      assert Agree(doc, tolerant, prog, n, ms[i], lenient, v);
    }
    if i :| 0 <= i < |ms| && Accepts(doc, tolerant, n, ms[i], lenient, v) {
      PicksWhoTakes(doc, tolerant, prog, n, ms, zs, key, lenient, v, i);
      KeyedCarriesKey(doc, tolerant, n, ms[i], lenient, key, v);
      assert Picks(prog, n, zs, key, v, i) && ZodAccepts(prog, n, zs[i], v);
    }
  }

  // ---------------------------------------------------------------- objects, maps and lists

  /** An object node with declared properties: presence, values and strictness each carry over. */
  lemma {:induction false} ShapeAgrees(doc: Document, tolerant: set<string>, prog: seq<ZConst>, n: nat,
                                       s: Schema, lenient: bool, v: Json)
    requires n <= |doc| && |prog| == |doc|
    requires IsInlineObject(s) && s.anyOf.Absent? && s.allOf.Absent? && DeclaresRequired(s) && !s.extra.Typed?
    requires Compile(s, lenient).Success?
    requires v.Obj? ==> forall k, i :: 0 <= k < |s.properties.value| && 0 <= i < |v.fields|
                                         && v.fields[i].name == s.properties.value[k].name ==>
               && Compile(s.properties.value[k].schema, lenient).Success?
               && Agree(doc, tolerant, prog, n, s.properties.value[k].schema, lenient, v.fields[i].value)
    ensures Agree(doc, tolerant, prog, n, s, lenient, v)
  {
    hide AcceptsFields, Present, DeclaresRequired;
    var shape := CompileShape(s.properties.value, s.required, lenient).value;
    var strict := !lenient && s.extra == Stated(false);
    assert Compile(s, lenient).value == ZObject(shape, strict);
    assert Accepts(doc, tolerant, n, s, lenient, v) <==> v.Obj? && AcceptsFields(doc, tolerant, n, s, lenient, v.fields);
    if v.Obj? {
      FieldsAgree(doc, tolerant, prog, n, s, shape, lenient, v.fields);
    }
  }

  lemma {:induction false} FieldsAgree(doc: Document, tolerant: set<string>, prog: seq<ZConst>, n: nat, s: Schema,
                                       shape: seq<ZField>, lenient: bool, fields: seq<Field>)
    requires n <= |doc| && |prog| == |doc|
    requires s.properties.Properties? && DeclaresRequired(s) && !s.extra.Typed?
    requires |shape| == |s.properties.value|
    requires forall k :: 0 <= k < |shape| ==>
               && shape[k].name == s.properties.value[k].name
               && shape[k].optional == (s.properties.value[k].name !in s.required)
               && Compile(s.properties.value[k].schema, lenient) == Success(shape[k].zod)
    requires forall k, i :: 0 <= k < |shape| && 0 <= i < |fields| && fields[i].name == s.properties.value[k].name ==>
               Agree(doc, tolerant, prog, n, s.properties.value[k].schema, lenient, fields[i].value)
    ensures ZodAccepts(prog, n, ZObject(shape, !lenient && s.extra == Stated(false)), Obj(fields)) <==>
            AcceptsFields(doc, tolerant, n, s, lenient, fields)
  {
    hide Compile, Present, Accepts;
    var ps := s.properties.value;
    var strict := !lenient && s.extra == Stated(false);
    forall k, i | 0 <= k < |shape| && 0 <= i < |fields| && fields[i].name == ps[k].name
      ensures ZodAccepts(prog, n, shape[k].zod, fields[i].value) <==>
              Accepts(doc, tolerant, n, ps[k].schema, lenient, fields[i].value)
    {
      assert Agree(doc, tolerant, prog, n, ps[k].schema, lenient, fields[i].value);
    }
    PresenceAgrees(s, shape, fields);
    forall name ensures Declares(shape, name) <==> DeclaresProperty(s, name) {
    }
  }

  lemma {:induction false} PresenceAgrees(s: Schema, shape: seq<ZField>, fields: seq<Field>)
    requires s.properties.Properties? && DeclaresRequired(s) && |shape| == |s.properties.value|
    requires forall k :: 0 <= k < |shape| ==>
               shape[k].name == s.properties.value[k].name
               && shape[k].optional == (s.properties.value[k].name !in s.required)
    ensures (forall k :: 0 <= k < |shape| && !Present(fields, shape[k].name) ==> shape[k].optional) <==>
            (forall r :: r in s.required ==> Present(fields, r))
  {
    hide Present;
    if forall k :: 0 <= k < |shape| && !Present(fields, shape[k].name) ==> shape[k].optional {
      forall r | r in s.required ensures Present(fields, r) {
        assert DeclaresProperty(s, r);
        var k :| 0 <= k < |s.properties.value| && s.properties.value[k].name == r;
        assert shape[k].name == r && !shape[k].optional;
      }
    }
  }

  /** An object node without properties is any object, or a map of one value type. */
  lemma {:induction false} RecordAgrees(doc: Document, tolerant: set<string>, prog: seq<ZConst>, n: nat,
                                        s: Schema, lenient: bool, v: Json)
    requires n <= |doc| && |prog| == |doc|
    requires s.ref == "" && s.values.None? && s.oneOf.Absent? && s.anyOf.Absent? && s.allOf.Absent?
    requires s.typ == Some("object") && s.properties.NoProperties? && s.required == []
    requires Compile(s, lenient).Success?
    requires s.extra.Typed? && v.Obj? ==> forall i :: 0 <= i < |v.fields| ==>
               && Compile(s.extra.schema, lenient).Success?
               && Agree(doc, tolerant, prog, n, s.extra.schema, lenient, v.fields[i].value)
    ensures s.extra != Stated(false) ==> Agree(doc, tolerant, prog, n, s, lenient, v)
    ensures s.extra == Stated(false) ==>
            (Agree(doc, tolerant, prog, n, s, lenient, v) <==> !v.Obj? || v.fields == [])
  {
    hide CompileAll, CompileShape, TakesExactlyOne, Present;
    assert Accepts(doc, tolerant, n, s, lenient, v) <==> v.Obj? && AcceptsFields(doc, tolerant, n, s, lenient, v.fields);
    if v.Obj? && !s.extra.Typed? {
      assert Compile(s, lenient) == Success(ZRecord(ZUnknown));
      assert ZodAccepts(prog, n, ZRecord(ZUnknown), v);
      if s.extra == Stated(false) && v.fields != [] {
        assert !DeclaresProperty(s, v.fields[0].name);
      }
    }
  }

  lemma {:induction false} ArrayAgrees(doc: Document, tolerant: set<string>, prog: seq<ZConst>, n: nat,
                                       s: Schema, lenient: bool, v: Json)
    requires n <= |doc| && |prog| == |doc|
    requires s.ref == "" && s.values.None? && s.oneOf.Absent? && s.anyOf.Absent? && s.allOf.Absent?
    requires s.typ == Some("array") && Compile(s, lenient).Success?
    requires s.items.Items? && v.Arr? ==> forall i :: 0 <= i < |v.items| ==>
               && Compile(s.items.value, lenient).Success?
               && Agree(doc, tolerant, prog, n, s.items.value, lenient, v.items[i])
    ensures Agree(doc, tolerant, prog, n, s, lenient, v)
  {
    hide CompileAll, CompileShape, TakesExactlyOne, AcceptsFields;
    if s.items.Items? {
      var item := Compile(s.items.value, lenient).value;
      assert Compile(s, lenient) == Success(ZArray(item));
      assert Accepts(doc, tolerant, n, s, lenient, v) <==>
             v.Arr? && forall i :: 0 <= i < |v.items| ==> Accepts(doc, tolerant, n, s.items.value, lenient, v.items[i]);
      if v.Arr? {
        ItemsAgree(doc, tolerant, prog, n, s.items.value, item, lenient, v.items);
      }
    } else {
      assert Compile(s, lenient) == Success(ZArray(ZUnknown));
      assert Accepts(doc, tolerant, n, s, lenient, v) <==> v.Arr?;
      assert v.Arr? ==> forall i :: 0 <= i < |v.items| ==> ZodAccepts(prog, n, ZUnknown, v.items[i]);
    }
  }

  lemma {:induction false} ItemsAgree(doc: Document, tolerant: set<string>, prog: seq<ZConst>, n: nat,
                                      s: Schema, item: Zod, lenient: bool, items: seq<Json>)
    requires n <= |doc| && |prog| == |doc| && Compile(s, lenient) == Success(item)
    requires forall i :: 0 <= i < |items| ==> Agree(doc, tolerant, prog, n, s, lenient, items[i])
    ensures ZodAccepts(prog, n, ZArray(item), Arr(items)) <==>
            forall i :: 0 <= i < |items| ==> Accepts(doc, tolerant, n, s, lenient, items[i])
  {
    hide Compile, Accepts;
    forall i | 0 <= i < |items|
      ensures ZodAccepts(prog, n, item, items[i]) <==> Accepts(doc, tolerant, n, s, lenient, items[i])
    {
      assert Agree(doc, tolerant, prog, n, s, lenient, items[i]);
    }
  }

  /** A whole-number node agrees exactly on the numbers Zod's `int` can hold. */
  lemma {:induction false} IntegerExact(doc: Document, tolerant: set<string>, prog: seq<ZConst>, n: nat,
                                        s: Schema, lenient: bool, v: Json)
    requires n <= |doc| && |prog| == |doc|
    requires s.ref == "" && s.values.None? && s.oneOf.Absent? && s.anyOf.Absent? && s.allOf.Absent?
    requires s.typ == Some("integer")
    ensures Compile(s, lenient).Success?
    ensures Agree(doc, tolerant, prog, n, s, lenient, v) <==> !(v.Num? && IsIntegral(v.n) && !IsSafeInteger(v.n))
  {
    hide CompileAll, CompileShape, TakesExactlyOne, AcceptsFields;
  }

  function Whole(k: int): real {
    k as real
  }

  /** Zod's `int` takes the whole numbers of a double's exact range; a schema's `integer` takes every whole number. */
  lemma {:induction false} IntegersExactly(n: real)
    ensures IsIntegral(n) <==> exists k :: n == Whole(k)
    ensures IsSafeInteger(n) <==> exists k :: n == Whole(k) && -9007199254740991 <= k <= 9007199254740991
  {
    assert Whole(n.Floor) == n.Floor as real;
  }

  /** The node without its `anyOf` and `allOf`. */
  function WithoutCombinators(s: Schema): Schema {
    s.(anyOf := Absent, allOf := Absent)
  }

  /**
   * Keywords the generator passes over: beside one it compiles, `anyOf` and `allOf` change nothing in the
   * expression, so it agrees with the node exactly on the values that the node without them refuses, or
   * that some member of `anyOf` and every member of `allOf` take.
   */
  lemma {:induction false} CombinatorsAreIgnored(doc: Document, tolerant: set<string>, prog: seq<ZConst>, n: nat,
                                                 s: Schema, lenient: bool, v: Json)
    requires n <= |doc| && |prog| == |doc| && s.ref == "" && Compile(s, lenient).Success?
    ensures Compile(WithoutCombinators(s), lenient) == Compile(s, lenient)
    ensures Agree(doc, tolerant, prog, n, WithoutCombinators(s), lenient, v) ==>
              (Agree(doc, tolerant, prog, n, s, lenient, v) <==>
               (Accepts(doc, tolerant, n, WithoutCombinators(s), lenient, v) ==>
                  && (s.anyOf.Listed? ==> exists m :: m in s.anyOf.value && Accepts(doc, tolerant, n, m, lenient, v))
                  && (s.allOf.Listed? ==> forall m :: m in s.allOf.value ==> Accepts(doc, tolerant, n, m, lenient, v))))
  {
    SameExpression(s, lenient);
    hide Compile, ZodAccepts;
    CombinatorsHaveTheirSay(doc, tolerant, n, s, lenient, v);
  }

  lemma {:induction false} SameExpression(s: Schema, lenient: bool)
    requires s.ref == "" && Compile(s, lenient).Success?
    ensures Compile(WithoutCombinators(s), lenient) == Compile(s, lenient)
  {
    hide CompileAll, CompileShape;
  }

  lemma {:induction false} CombinatorsHaveTheirSay(doc: Document, tolerant: set<string>, n: nat, s: Schema, lenient: bool, v: Json)
    requires n <= |doc| && s.ref == ""
    ensures Accepts(doc, tolerant, n, s, lenient, v) <==>
            && Accepts(doc, tolerant, n, WithoutCombinators(s), lenient, v)
            && (s.anyOf.Listed? ==> exists m :: m in s.anyOf.value && Accepts(doc, tolerant, n, m, lenient, v))
            && (s.allOf.Listed? ==> forall m :: m in s.allOf.value ==> Accepts(doc, tolerant, n, m, lenient, v))
  {
    CombinatorsByPlace(doc, tolerant, n, s, lenient, v);
    hide Accepts;
    if s.anyOf.Listed? {
      forall m | m in s.anyOf.value ensures exists i :: 0 <= i < |s.anyOf.value| && s.anyOf.value[i] == m {
      }
    }
    if s.allOf.Listed? {
      forall m | m in s.allOf.value ensures exists i :: 0 <= i < |s.allOf.value| && s.allOf.value[i] == m {
      }
    }
  }

  lemma {:induction false} CombinatorsByPlace(doc: Document, tolerant: set<string>, n: nat, s: Schema, lenient: bool, v: Json)
    requires n <= |doc| && s.ref == ""
    ensures Accepts(doc, tolerant, n, s, lenient, v) <==>
            && Accepts(doc, tolerant, n, WithoutCombinators(s), lenient, v)
            && (s.anyOf.Listed? ==>
                  exists i :: 0 <= i < |s.anyOf.value| && Accepts(doc, tolerant, n, s.anyOf.value[i], lenient, v))
            && (s.allOf.Listed? ==>
                  forall i :: 0 <= i < |s.allOf.value| ==> Accepts(doc, tolerant, n, s.allOf.value[i], lenient, v))
  {
    hide TakesExactlyOne;
    if v.Obj? {
      SameFields(doc, tolerant, n, s, lenient, v.fields);
    }
    hide AcceptsFields;
  }

  lemma {:induction false} SameFields(doc: Document, tolerant: set<string>, n: nat, s: Schema, lenient: bool, fields: seq<Field>)
    requires n <= |doc|
    ensures AcceptsFields(doc, tolerant, n, WithoutCombinators(s), lenient, fields) <==> AcceptsFields(doc, tolerant, n, s, lenient, fields)
  {
    hide Accepts, Present;
    forall name ensures DeclaresProperty(WithoutCombinators(s), name) <==> DeclaresProperty(s, name) {
    }
  }

  // ---------------------------------------------------------------- main results

  lemma {:induction false} MembersCompile(s: Schema, lenient: bool)
    requires s.ref == "" && s.values.None? && Compile(s, lenient).Success?
    ensures s.oneOf.Listed? ==> forall i :: 0 <= i < |s.oneOf.value| ==> Compile(s.oneOf.value[i], lenient).Success?
    ensures s.oneOf.Absent? && s.typ == Some("array") && s.items.Items? ==> Compile(s.items.value, lenient).Success?
    ensures IsInlineObject(s) ==>
            forall k :: 0 <= k < |s.properties.value| ==> Compile(s.properties.value[k].schema, lenient).Success?
    ensures s.oneOf.Absent? && s.typ == Some("object") && s.properties.NoProperties? && s.extra.Typed? ==>
            Compile(s.extra.schema, lenient).Success?
  {
    hide CompileAll, CompileShape;
  }

  lemma {:induction false} ScalarAgrees(doc: Document, tolerant: set<string>, prog: seq<ZConst>, n: nat,
                                        s: Schema, lenient: bool, v: Json)
    requires n <= |doc| && |prog| == |doc| && InRange(doc, n, s, v)
    requires s.ref == "" && s.oneOf.Absent? && s.anyOf.Absent? && s.allOf.Absent?
    requires
      || (s.values.Some? && (s.typ.None? || s.typ == Some("string")) && forall w :: w in s.values.value ==> w.Str?)
      || (s.values.None? && s.typ in {Some("string"), Some("number"), Some("integer"), Some("boolean")})
    ensures Compile(s, lenient).Success? && Agree(doc, tolerant, prog, n, s, lenient, v)
  {
    hide CompileAll, CompileShape, TakesExactlyOne, AcceptsFields;
  }

  lemma {:induction false} ReferenceAgrees(doc: Document, tolerant: set<string>, prog: seq<ZConst>, n: nat,
                                           s: Schema, lenient: bool, v: Json)
    requires n <= |doc| && |prog| == |doc| && IsRendered(doc, tolerant, prog)
    requires s.ref != "" && FindSchema(doc, n, LastSegment(s.ref)).Some?
    requires var i := FindSchema(doc, n, LastSegment(s.ref)).value;
             Agree(doc, tolerant, prog, i, doc[i].schema, doc[i].name in tolerant, v)
    ensures Agree(doc, tolerant, prog, n, s, lenient, v)
  {
    hide CompileAll, CompileShape, TakesExactlyOne, AcceptsFields, FindSchema, FindConst, LastSegment, ConstName;
    SameIndex(doc, tolerant, prog, n, LastSegment(s.ref));
  }

  /** What one node's expression accepts is what the node accepts, given covered schemas before it. */
  lemma {:induction false} NodeFaithful(doc: Document, tolerant: set<string>, prog: seq<ZConst>, n: nat,
                                        s: Schema, lenient: bool, v: Json)
    requires n <= |doc| && |prog| == |doc| && IsRendered(doc, tolerant, prog)
    requires AllCovered(doc, tolerant, n) && Covered(doc, tolerant, n, s, lenient)
    requires Compile(s, lenient).Success? && Proper(v) && InRange(doc, n, s, v)
    ensures Agree(doc, tolerant, prog, n, s, lenient, v)
    decreases n, s
  {
    hide Compile, Accepts, ZodAccepts, Agree, Discriminates, FindSchema, LastSegment, DistinctIdents, DeclaresRequired;
    if s.ref != "" {
      var i := FindSchema(doc, n, LastSegment(s.ref)).value;
      NodeFaithful(doc, tolerant, prog, i, doc[i].schema, doc[i].name in tolerant, v);
      ReferenceAgrees(doc, tolerant, prog, n, s, lenient, v);
    } else if s.values.Some? {
      ScalarAgrees(doc, tolerant, prog, n, s, lenient, v);
    } else {
      MembersCompile(s, lenient);
      if s.oneOf.Listed? {
        UnionFaithful(doc, tolerant, prog, n, s, lenient, v);
      } else if s.typ == Some("array") {
        if s.items.Items? && v.Arr? {
          forall i | 0 <= i < |v.items| ensures Agree(doc, tolerant, prog, n, s.items.value, lenient, v.items[i]) {
            NodeFaithful(doc, tolerant, prog, n, s.items.value, lenient, v.items[i]);
          }
        }
        ArrayAgrees(doc, tolerant, prog, n, s, lenient, v);
      } else if s.typ == Some("object") {
        ObjectFaithful(doc, tolerant, prog, n, s, lenient, v);
      } else {
        ScalarAgrees(doc, tolerant, prog, n, s, lenient, v);
      }
    }
  }

  /** What is asked of a covered union's members. */
  lemma {:induction false} CoveredUnion(doc: Document, tolerant: set<string>, n: nat, s: Schema, lenient: bool)
    requires n <= |doc| && s.ref == "" && s.values.None? && s.oneOf.Listed? && Covered(doc, tolerant, n, s, lenient)
    ensures IsSoleUnion(s)
    ensures forall i :: 0 <= i < |s.oneOf.value| ==> Covered(doc, tolerant, n, s.oneOf.value[i], lenient)
    ensures s.discriminator != "" ==> Discriminates(doc, n, s.oneOf.value, s.discriminator)
    ensures s.discriminator == "" ==> Exclusive(doc, tolerant, n, s.oneOf.value, lenient)
  {
    hide Discriminates, Exclusive, DeclaresRequired;
  }

  lemma {:induction false} UnionInRange(doc: Document, n: nat, s: Schema, v: Json)
    requires n <= |doc| && s.ref == "" && s.oneOf.Listed? && InRange(doc, n, s, v)
    ensures forall i :: 0 <= i < |s.oneOf.value|
                        && (s.discriminator == ""
                            || HasKey(v, s.discriminator, KeyEnum(doc, n, s.oneOf.value[i], s.discriminator))) ==>
              InRange(doc, n, s.oneOf.value[i], v)
  {
    hide HasKey, KeyEnum;
  }

  lemma {:induction false} UnionFaithful(doc: Document, tolerant: set<string>, prog: seq<ZConst>, n: nat,
                                         s: Schema, lenient: bool, v: Json)
    requires n <= |doc| && |prog| == |doc| && IsRendered(doc, tolerant, prog)
    requires AllCovered(doc, tolerant, n) && Covered(doc, tolerant, n, s, lenient)
    requires s.ref == "" && s.values.None? && s.oneOf.Listed?
    requires Compile(s, lenient).Success? && Proper(v) && InRange(doc, n, s, v)
    ensures Agree(doc, tolerant, prog, n, s, lenient, v)
    decreases n, s, 0
  {
    hide Compile, Accepts, ZodAccepts, Agree, IsRendered, AllCovered, Discriminates, HasKey, KeyEnum, Covered, InRange;
    CoveredUnion(doc, tolerant, n, s, lenient);
    UnionInRange(doc, n, s, v);
    MembersCompile(s, lenient);
    var ms, key := s.oneOf.value, s.discriminator;
    forall i | 0 <= i < |ms| && (key == "" || HasKey(v, key, KeyEnum(doc, n, ms[i], key)))
      ensures Agree(doc, tolerant, prog, n, ms[i], lenient, v)
    {
      NodeFaithful(doc, tolerant, prog, n, ms[i], lenient, v);
    }
    if key != "" {
      DiscriminatedAgrees(doc, tolerant, prog, n, s, lenient, v);
    } else {
      PlainUnionExact(doc, tolerant, prog, n, s, lenient, v);
    }
  }

  lemma {:induction false} ObjectFaithful(doc: Document, tolerant: set<string>, prog: seq<ZConst>, n: nat,
                                          s: Schema, lenient: bool, v: Json)
    requires n <= |doc| && |prog| == |doc| && IsRendered(doc, tolerant, prog)
    requires AllCovered(doc, tolerant, n) && Covered(doc, tolerant, n, s, lenient)
    requires s.ref == "" && s.values.None? && s.oneOf.Absent? && s.typ == Some("object")
    requires Compile(s, lenient).Success? && Proper(v) && InRange(doc, n, s, v)
    ensures Agree(doc, tolerant, prog, n, s, lenient, v)
    decreases n, s, 0
  {
    hide Compile, Accepts, ZodAccepts, Agree, DistinctIdents, IsRendered, AllCovered;
    MembersCompile(s, lenient);
    if s.properties.Properties? {
      if v.Obj? {
        forall k, i | 0 <= k < |s.properties.value| && 0 <= i < |v.fields|
                      && v.fields[i].name == s.properties.value[k].name
          ensures Compile(s.properties.value[k].schema, lenient).Success?
          ensures Agree(doc, tolerant, prog, n, s.properties.value[k].schema, lenient, v.fields[i].value)
        {
          NodeFaithful(doc, tolerant, prog, n, s.properties.value[k].schema, lenient, v.fields[i].value);
        }
      }
      ShapeAgrees(doc, tolerant, prog, n, s, lenient, v);
    } else {
      if s.extra.Typed? && v.Obj? {
        forall i | 0 <= i < |v.fields|
          ensures Compile(s.extra.schema, lenient).Success?
          ensures Agree(doc, tolerant, prog, n, s.extra.schema, lenient, v.fields[i].value)
        {
          NodeFaithful(doc, tolerant, prog, n, s.extra.schema, lenient, v.fields[i].value);
        }
      }
      NoRequired(s);
      RecordAgrees(doc, tolerant, prog, n, s, lenient, v);
    }
  }

  lemma {:induction false} NoRequired(s: Schema)
    requires s.properties.NoProperties? && DeclaresRequired(s)
    ensures s.required == []
  {
    if s.required != [] {
      HasElement(s.required);
    }
  }

  /** A covered node is never refused. */
  lemma {:induction false} CoveredCompiles(doc: Document, tolerant: set<string>, n: nat, s: Schema, lenient: bool)
    requires n <= |doc| && Covered(doc, tolerant, n, s, lenient)
    ensures Compile(s, lenient).Success?
    decreases s
  {
    hide Discriminates, Exclusive, FindSchema, LastSegment, DeclaresRequired;
    if s.ref == "" && s.values.None? {
      if s.oneOf.Listed? {
        forall i | 0 <= i < |s.oneOf.value| ensures Compile(s.oneOf.value[i], lenient).Success? {
          CoveredCompiles(doc, tolerant, n, s.oneOf.value[i], lenient);
        }
        AllCompile(s.oneOf.value, lenient);
      } else if s.typ == Some("array") && s.items.Items? {
        CoveredCompiles(doc, tolerant, n, s.items.value, lenient);
      } else if s.typ == Some("object") && s.extra.Typed? {
        CoveredCompiles(doc, tolerant, n, s.extra.schema, lenient);
      } else if s.typ == Some("object") && s.properties.Properties? {
        forall k | 0 <= k < |s.properties.value| ensures Compile(s.properties.value[k].schema, lenient).Success? {
          CoveredCompiles(doc, tolerant, n, s.properties.value[k].schema, lenient);
        }
        ShapeCompiles(s.properties.value, s.required, lenient);
      }
    }
  }

  lemma {:induction false} AllCompile(ss: seq<Schema>, lenient: bool)
    requires forall i :: 0 <= i < |ss| ==> Compile(ss[i], lenient).Success?
    ensures CompileAll(ss, lenient).Success?
  {
    hide Compile;
    if ss != [] {
      AllCompile(ss[1..], lenient);
    }
  }

  lemma {:induction false} ShapeCompiles(ps: seq<Property>, required: seq<string>, lenient: bool)
    requires forall i :: 0 <= i < |ps| ==> Compile(ps[i].schema, lenient).Success?
    ensures CompileShape(ps, required, lenient).Success?
  {
    hide Compile;
    if ps != [] {
      ShapeCompiles(ps[1..], required, lenient);
    }
  }

  lemma {:induction false} DocumentCompiles(doc: Document, tolerant: set<string>)
    requires forall i :: 0 <= i < |doc| ==> Compile(doc[i].schema, doc[i].name in tolerant).Success?
    ensures Render(doc, tolerant).Success?
  {
    hide Compile;
    if doc != [] {
      DocumentCompiles(doc[1..], tolerant);
    }
  }

  /** The emitted module accepts, constant by constant, exactly what the contract's schemas accept. */
  lemma {:induction false} RenderedModuleIsFaithful(doc: Document, tolerant: set<string>, i: nat, v: Json)
    requires DistinctIdents(doc) && AllCovered(doc, tolerant, |doc|)
    requires i < |doc| && Proper(v) && InRange(doc, i, doc[i].schema, v)
    ensures Render(doc, tolerant).Success?
    ensures ZodAccepts(Render(doc, tolerant).value, i, Render(doc, tolerant).value[i].zod, v) <==>
            Accepts(doc, tolerant, i, doc[i].schema, doc[i].name in tolerant, v)
  {
    hide Compile, Accepts, ZodAccepts, Covered, Render;
    forall k | 0 <= k < |doc| ensures Compile(doc[k].schema, doc[k].name in tolerant).Success? {
      CoveredCompiles(doc, tolerant, k, doc[k].schema, doc[k].name in tolerant);
    }
    DocumentCompiles(doc, tolerant);
    var prog := Render(doc, tolerant).value;
    NodeFaithful(doc, tolerant, prog, i, doc[i].schema, doc[i].name in tolerant, v);
  }
}
