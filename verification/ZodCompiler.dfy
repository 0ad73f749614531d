/** The generator of runtime validators: one JSON Schema node as one Zod expression. */
module ZodCompiler {
  import opened Basics
  import opened JsonTree
  import opened Text

  // ---------------------------------------------------------------- schemas

  datatype Extra = Unstated | Stated(allowed: bool) | Typed(schema: Schema)

  datatype Property = Property(name: string, schema: Schema)

  datatype SchemaList = Absent | Listed(value: seq<Schema>)

  datatype PropertyList = NoProperties | Properties(value: seq<Property>)

  datatype ItemSchema = NoItems | Items(value: Schema)

  /** The keywords the generator reads; an absent `$ref` or `discriminator` is the empty string. */
  datatype Schema = Schema(
    ref: string,
    values: Option<seq<Json>>,
    oneOf: SchemaList,
    discriminator: string,
    anyOf: SchemaList,
    allOf: SchemaList,
    typ: Option<string>,
    required: seq<string>,
    properties: PropertyList,
    items: ItemSchema,
    extra: Extra)

  /** `components.schemas`, in declaration order. */
  type Document = seq<Property>

  // ---------------------------------------------------------------- identifiers

  predicate IsAlphanumeric(c: char) {
    'a' <= c <= 'z' || 'A' <= c <= 'Z' || '0' <= c <= '9'
  }

  function UpperCase(c: char): char {
    if 'a' <= c <= 'z' then c - 'a' + 'A' else c
  }

  /** The alphanumeric runs, each with its first letter raised; `start` says a run begins here. */
  function PascalFrom(value: string, start: bool): string {
    if value == [] then ""
    else if !IsAlphanumeric(value[0]) then PascalFrom(value[1..], true)
    else [if start then UpperCase(value[0]) else value[0]] + PascalFrom(value[1..], false)
  }

  function PascalCase(value: string): string {
    PascalFrom(value, true)
  }

  function ConstName(name: string): string {
    PascalCase(name) + "Schema"
  }

  /** Two schemas never share an identifier. */
  ghost predicate DistinctIdents(doc: Document) {
    forall i, j :: 0 <= i < j < |doc| ==> ConstName(doc[i].name) != ConstName(doc[j].name)
  }

  function LastSegment(ref: string): string {
    var parts := Split(ref, '/');
    parts[|parts| - 1]
  }

  lemma {:induction false} SplitEndsWith(path: string, last: string)
    requires '/' !in last
    ensures var parts := Split(path + "/" + last, '/'); |parts| >= 2 && parts[|parts| - 1] == last
  {
    SplitPlain(last, '/');
    if path == "" {
      assert (path + "/" + last)[1..] == last;
    } else {
      SplitEndsWith(path[1..], last);
      assert (path + "/" + last)[1..] == path[1..] + "/" + last;
    }
  }

  /** The last segment is what stands behind the last slash. */
  lemma {:induction false} LastSegmentIs(path: string, last: string)
    requires '/' !in last
    ensures LastSegment(path + "/" + last) == last && LastSegment(last) == last
  {
    SplitPlain(last, '/');
    SplitEndsWith(path, last);
  }

  // ---------------------------------------------------------------- Zod terms and the generator

  datatype Zod =
    | ZRef(ident: string)
    | ZEnum(values: seq<Json>)
    | ZUnion(members: seq<Zod>)
    | ZDiscriminated(key: string, members: seq<Zod>)
    | ZString
    | ZNumber
    | ZInt
    | ZBoolean
    | ZUnknown
    | ZArray(item: Zod)
    | ZRecord(value: Zod)
    | ZObject(shape: seq<ZField>, strict: bool)

  datatype ZField = ZField(name: string, zod: Zod, optional: bool)

  datatype ZConst = ZConst(ident: string, zod: Zod)

  /** The expression for one node, or the node the generator refuses. */
  function Compile(s: Schema, tolerant: bool): Result<Zod, Schema>
    decreases s, 0
  {
    if s.ref != "" then Success(ZRef(ConstName(LastSegment(s.ref))))
    else if s.values.Some? then Success(ZEnum(s.values.value))
    else if s.oneOf.Listed? then
      match CompileAll(s.oneOf.value, tolerant)
      case Failure(e) => Failure(e)
      case Success(members) =>
        Success(if s.discriminator != "" then ZDiscriminated(s.discriminator, members) else ZUnion(members))
    else if s.typ == Some("string") then Success(ZString)
    else if s.typ == Some("number") then Success(ZNumber)
    else if s.typ == Some("integer") then Success(ZInt)
    else if s.typ == Some("boolean") then Success(ZBoolean)
    else if s.typ == Some("array") then
      if s.items.NoItems? then Success(ZArray(ZUnknown))
      else
        match Compile(s.items.value, tolerant)
        case Failure(e) => Failure(e)
        case Success(item) => Success(ZArray(item))
    else if s.typ == Some("object") then
      if s.properties.NoProperties? then
        if !s.extra.Typed? then Success(ZRecord(ZUnknown))
        else
          match Compile(s.extra.schema, tolerant)
          case Failure(e) => Failure(e)
          case Success(value) => Success(ZRecord(value))
      else
        match CompileShape(s.properties.value, s.required, tolerant)
        case Failure(e) => Failure(e)
        case Success(shape) => Success(ZObject(shape, !tolerant && s.extra == Stated(false)))
    else Failure(s)
  }

  function CompileAll(ss: seq<Schema>, tolerant: bool): (r: Result<seq<Zod>, Schema>)
    ensures r.Success? ==> |r.value| == |ss|
    ensures r.Success? ==> forall i :: 0 <= i < |ss| ==> Compile(ss[i], tolerant) == Success(r.value[i])
    decreases ss, 1
  {
    if ss == [] then Success([])
    else
      match Compile(ss[0], tolerant)
      case Failure(e) => Failure(e)
      case Success(z) =>
        match CompileAll(ss[1..], tolerant)
        case Failure(e) => Failure(e)
        case Success(zs) => Success([z] + zs)
  }

  function CompileShape(ps: seq<Property>, required: seq<string>, tolerant: bool): (r: Result<seq<ZField>, Schema>)
    ensures r.Success? ==> |r.value| == |ps|
    ensures r.Success? ==> forall i :: 0 <= i < |ps| ==>
              && r.value[i].name == ps[i].name
              && r.value[i].optional == (ps[i].name !in required)
              && Compile(ps[i].schema, tolerant) == Success(r.value[i].zod)
    decreases ps, 1
  {
    if ps == [] then Success([])
    else
      match Compile(ps[0].schema, tolerant)
      case Failure(e) => Failure(e)
      case Success(z) =>
        match CompileShape(ps[1..], required, tolerant)
        case Failure(e) => Failure(e)
        case Success(fs) => Success([ZField(ps[0].name, z, ps[0].name !in required)] + fs)
  }

  /** One constant per schema; the names in `tolerant` are read tolerantly. */
  function Render(doc: Document, tolerant: set<string>): (r: Result<seq<ZConst>, Schema>)
    ensures r.Success? ==> |r.value| == |doc|
    ensures r.Success? ==> forall i :: 0 <= i < |doc| ==>
              && r.value[i].ident == ConstName(doc[i].name)
              && Compile(doc[i].schema, doc[i].name in tolerant) == Success(r.value[i].zod)
  {
    if doc == [] then Success([])
    else
      match Compile(doc[0].schema, doc[0].name in tolerant)
      case Failure(e) => Failure(e)
      case Success(z) =>
        match Render(doc[1..], tolerant)
        case Failure(e) => Failure(e)
        case Success(rest) => Success([ZConst(ConstName(doc[0].name), z)] + rest)
  }

  // ---------------------------------------------------------------- what a Zod term accepts

  const MAX_SAFE_INTEGER: real := 9007199254740991.0

  predicate IsIntegral(n: real) {
    n.Floor as real == n
  }

  predicate IsSafeInteger(n: real) {
    IsIntegral(n) && -MAX_SAFE_INTEGER <= n <= MAX_SAFE_INTEGER
  }

  /** The constant called `ident` among the first n. */
  function FindConst(prog: seq<ZConst>, n: nat, ident: string): (r: Option<nat>)
    requires n <= |prog|
    ensures r.Some? ==> r.value < n && prog[r.value].ident == ident
    ensures r.None? ==> forall i :: 0 <= i < n ==> prog[i].ident != ident
  {
    if n == 0 then None
    else if prog[n - 1].ident == ident then Some(n - 1)
    else FindConst(prog, n - 1, ident)
  }

  function ShapeValues(shape: seq<ZField>, key: string): seq<Json> {
    if shape == [] then []
    else if shape[0].name == key && shape[0].zod.ZEnum? then shape[0].zod.values
    else ShapeValues(shape[1..], key)
  }

  /** The values of `key` that lead a discriminated union to this member. */
  function KeyValues(prog: seq<ZConst>, n: nat, z: Zod, key: string): seq<Json>
    requires n <= |prog|
    decreases n, z
  {
    if z.ZRef? then
      var i := FindConst(prog, n, z.ident);
      if i.Some? then KeyValues(prog, i.value, prog[i.value].zod, key) else []
    else if z.ZObject? then ShapeValues(z.shape, key)
    else []
  }

  predicate HasKey(v: Json, key: string, values: seq<Json>) {
    v.Obj? && exists f :: f in v.fields && f.name == key && f.value in values
  }

  predicate Declares(shape: seq<ZField>, name: string) {
    exists k :: 0 <= k < |shape| && shape[k].name == name
  }

  predicate Present(fields: seq<Field>, name: string) {
    exists f :: f in fields && f.name == name
  }

  /** `parse` succeeds; a constant sees only the ones declared before it. */
  predicate ZodAccepts(prog: seq<ZConst>, n: nat, z: Zod, v: Json)
    requires n <= |prog|
    decreases n, z
  {
    match z
    case ZRef(ident) =>
      var i := FindConst(prog, n, ident);
      i.Some? && ZodAccepts(prog, i.value, prog[i.value].zod, v)
    case ZEnum(values) => v in values
    case ZUnion(members) => exists i :: 0 <= i < |members| && ZodAccepts(prog, n, members[i], v)
    case ZDiscriminated(key, members) =>
      exists i :: 0 <= i < |members| && Picks(prog, n, members, key, v, i) && ZodAccepts(prog, n, members[i], v)
    case ZString => v.Str?
    case ZNumber => v.Num?
    case ZInt => v.Num? && IsSafeInteger(v.n)
    case ZBoolean => v.Bool?
    case ZUnknown => true
    case ZArray(item) => v.Arr? && forall i :: 0 <= i < |v.items| ==> ZodAccepts(prog, n, item, v.items[i])
    case ZRecord(value) => v.Obj? && forall i :: 0 <= i < |v.fields| ==> ZodAccepts(prog, n, value, v.fields[i].value)
    case ZObject(shape, strict) =>
      && v.Obj?
      && (forall k :: 0 <= k < |shape| && !Present(v.fields, shape[k].name) ==> shape[k].optional)
      && (forall k, i :: 0 <= k < |shape| && 0 <= i < |v.fields| && v.fields[i].name == shape[k].name ==>
            ZodAccepts(prog, n, shape[k].zod, v.fields[i].value))
      && (strict ==> forall i :: 0 <= i < |v.fields| ==> Declares(shape, v.fields[i].name))
  }

  /** The i-th member is the first one the value's `key` leads to. */
  predicate Picks(prog: seq<ZConst>, n: nat, members: seq<Zod>, key: string, v: Json, i: nat)
    requires n <= |prog| && i < |members|
  {
    && HasKey(v, key, KeyValues(prog, n, members[i], key))
    && forall j :: 0 <= j < i ==> !HasKey(v, key, KeyValues(prog, n, members[j], key))
  }

  // ---------------------------------------------------------------- what a schema accepts

  function FindSchema(doc: Document, n: nat, name: string): (r: Option<nat>)
    requires n <= |doc|
    ensures r.Some? ==> r.value < n && doc[r.value].name == name
    ensures r.None? ==> forall i :: 0 <= i < n ==> doc[i].name != name
  {
    if n == 0 then None
    else if doc[n - 1].name == name then Some(n - 1)
    else FindSchema(doc, n - 1, name)
  }

  /** The schema emitted under an identifier, among the first n. */
  function FindIdent(doc: Document, n: nat, ident: string): (r: Option<nat>)
    requires n <= |doc|
    ensures r.Some? ==> r.value < n && ConstName(doc[r.value].name) == ident
    ensures r.None? ==> forall i :: 0 <= i < n ==> ConstName(doc[i].name) != ident
  {
    if n == 0 then None
    else if ConstName(doc[n - 1].name) == ident then Some(n - 1)
    else FindIdent(doc, n - 1, ident)
  }

  predicate HasType(v: Json, typ: string) {
    if typ == "string" then v.Str?
    else if typ == "number" then v.Num?
    else if typ == "integer" then v.Num? && IsIntegral(v.n)
    else if typ == "boolean" then v.Bool?
    else if typ == "array" then v.Arr?
    else if typ == "object" then v.Obj?
    else typ == "null" && v.Null?
  }

  predicate DeclaresProperty(s: Schema, name: string) {
    s.properties.Properties? && exists k :: 0 <= k < |s.properties.value| && s.properties.value[k].name == name
  }

  /**
   * JSON Schema acceptance: every keyword has its say. A `$ref` stands alone, as draft 7 has it.
   * A lenient reader looks past keys an inline object does not declare; with `lenient` false and
   * nothing in `tolerant` this is the standard's own reading.
   */
  predicate Accepts(doc: Document, tolerant: set<string>, n: nat, s: Schema, lenient: bool, v: Json)
    requires n <= |doc|
    decreases n, s, 1
  {
    if s.ref != "" then
      var i := FindSchema(doc, n, LastSegment(s.ref));
      i.Some? && Accepts(doc, tolerant, i.value, doc[i.value].schema, doc[i.value].name in tolerant, v)
    else
      && (s.values.Some? ==> v in s.values.value)
      && (s.oneOf.Listed? ==> TakesExactlyOne(doc, tolerant, n, s.oneOf.value, lenient, v))
      && (s.anyOf.Listed? ==>
            exists i :: 0 <= i < |s.anyOf.value| && Accepts(doc, tolerant, n, s.anyOf.value[i], lenient, v))
      && (s.allOf.Listed? ==>
            forall i :: 0 <= i < |s.allOf.value| ==> Accepts(doc, tolerant, n, s.allOf.value[i], lenient, v))
      && (s.typ.Some? ==> HasType(v, s.typ.value))
      && (v.Arr? && s.items.Items? ==>
            forall i :: 0 <= i < |v.items| ==> Accepts(doc, tolerant, n, s.items.value, lenient, v.items[i]))
      && (v.Obj? ==> AcceptsFields(doc, tolerant, n, s, lenient, v.fields))
  }

  /** `oneOf`: one member takes the value and no other does. */
  predicate TakesExactlyOne(doc: Document, tolerant: set<string>, n: nat, ms: seq<Schema>, lenient: bool, v: Json)
    requires n <= |doc|
    decreases n, ms, 0
  {
    exists i :: 0 <= i < |ms| && Accepts(doc, tolerant, n, ms[i], lenient, v) &&
      forall j :: 0 <= j < |ms| && j != i ==> !Accepts(doc, tolerant, n, ms[j], lenient, v)
  }

  /** The keywords that speak about objects. */
  predicate AcceptsFields(doc: Document, tolerant: set<string>, n: nat, s: Schema, lenient: bool, fields: seq<Field>)
    requires n <= |doc|
    decreases n, s, 0
  {
    && (forall r :: r in s.required ==> Present(fields, r))
    && (s.properties.Properties? ==>
          forall k, i :: 0 <= k < |s.properties.value| && 0 <= i < |fields|
                         && fields[i].name == s.properties.value[k].name ==>
            Accepts(doc, tolerant, n, s.properties.value[k].schema, lenient, fields[i].value))
    && (s.extra == Stated(false) && !(lenient && s.properties.Properties?) ==>
          forall i :: 0 <= i < |fields| ==> DeclaresProperty(s, fields[i].name))
    && (s.extra.Typed? ==>
          forall i :: 0 <= i < |fields| && !DeclaresProperty(s, fields[i].name) ==>
            Accepts(doc, tolerant, n, s.extra.schema, lenient, fields[i].value))
  }
}
