/** The generated module as a whole: its constants are declared before they are used. */
module ZodModule {
  import opened Basics
  import opened JsonTree
  import opened Text
  import opened ZodCompiler
  import Order = SchemaOrder

  // ---------------------------------------------------------------- references a term and a schema make

  /** The constants a term mentions. */
  function Idents(z: Zod): set<string>
    decreases z, 0
  {
    match z
    case ZRef(ident) => {ident}
    case ZUnion(members) => IdentsOfAll(members)
    case ZDiscriminated(_, members) => IdentsOfAll(members)
    case ZArray(item) => Idents(item)
    case ZRecord(value) => Idents(value)
    case ZObject(shape, _) => IdentsOfShape(shape)
    case _ => {}
  }

  function IdentsOfAll(zs: seq<Zod>): set<string>
    decreases zs, 1
  {
    if zs == [] then {} else Idents(zs[0]) + IdentsOfAll(zs[1..])
  }

  function IdentsOfShape(shape: seq<ZField>): set<string>
    decreases shape, 1
  {
    if shape == [] then {} else Idents(shape[0].zod) + IdentsOfShape(shape[1..])
  }

  /** The `$ref`s the generator meets on its way through a schema. */
  function Visited(s: Schema): set<string>
    decreases s, 0
  {
    if s.ref != "" then {s.ref}
    else if s.values.Some? then {}
    else if s.oneOf.Listed? then VisitedInAll(s.oneOf.value)
    else if s.typ == Some("array") then (if s.items.Items? then Visited(s.items.value) else {})
    else if s.typ == Some("object") then
      if s.properties.Properties? then VisitedInProperties(s.properties.value)
      else if s.extra.Typed? then Visited(s.extra.schema)
      else {}
    else {}
  }

  function VisitedInAll(ss: seq<Schema>): set<string>
    decreases ss, 1
  {
    if ss == [] then {} else Visited(ss[0]) + VisitedInAll(ss[1..])
  }

  function VisitedInProperties(ps: seq<Property>): set<string>
    decreases ps, 1
  {
    if ps == [] then {} else Visited(ps[0].schema) + VisitedInProperties(ps[1..])
  }

  function IdentsFor(refs: set<string>): set<string> {
    set r | r in refs :: ConstName(LastSegment(r))
  }

  lemma {:induction false} IdentsForUnion(a: set<string>, b: set<string>)
    ensures IdentsFor(a + b) == IdentsFor(a) + IdentsFor(b)
  {
  }

  /** An expression mentions exactly the constants of the references it was compiled from. */
  lemma {:induction false} CompiledIdents(s: Schema, tolerant: bool)
    requires Compile(s, tolerant).Success?
    ensures Idents(Compile(s, tolerant).value) == IdentsFor(Visited(s))
    decreases s, 0
  {
    hide LastSegment, ConstName;
    if s.ref == "" && s.values.None? {
      if s.oneOf.Listed? {
        CompiledIdentsOfAll(s.oneOf.value, tolerant);
      } else if s.typ == Some("array") && s.items.Items? {
        CompiledIdents(s.items.value, tolerant);
      } else if s.typ == Some("object") && s.properties.Properties? {
        CompiledIdentsOfShape(s.properties.value, s.required, tolerant);
      } else if s.typ == Some("object") && s.extra.Typed? {
        CompiledIdents(s.extra.schema, tolerant);
      }
    }
  }

  lemma {:induction false} CompiledIdentsOfAll(ss: seq<Schema>, tolerant: bool)
    requires CompileAll(ss, tolerant).Success?
    ensures IdentsOfAll(CompileAll(ss, tolerant).value) == IdentsFor(VisitedInAll(ss))
    decreases ss, 1
  {
    hide LastSegment, ConstName, Compile, Idents, Visited;
    if ss != [] {
      CompiledIdents(ss[0], tolerant);
      CompiledIdentsOfAll(ss[1..], tolerant);
      IdentsForUnion(Visited(ss[0]), VisitedInAll(ss[1..]));
    }
  }

  lemma {:induction false} CompiledIdentsOfShape(ps: seq<Property>, required: seq<string>, tolerant: bool)
    requires CompileShape(ps, required, tolerant).Success?
    ensures IdentsOfShape(CompileShape(ps, required, tolerant).value) == IdentsFor(VisitedInProperties(ps))
    decreases ps, 1
  {
    hide LastSegment, ConstName, Compile, Idents, Visited;
    if ps != [] {
      CompiledIdents(ps[0].schema, tolerant);
      CompiledIdentsOfShape(ps[1..], required, tolerant);
      IdentsForUnion(Visited(ps[0].schema), VisitedInProperties(ps[1..]));
    }
  }

  // ---------------------------------------------------------------- the schema as the section writes it

  /** The document node a schema is read from. */
  function Node(s: Schema): Json
    decreases s, 0
  {
    Obj((if s.ref != "" then [Field("$ref", Str(s.ref))] else [])
        + (if s.values.Some? then [Field("enum", Arr(s.values.value))] else [])
        + (if s.discriminator != "" then [Field("discriminator", Str(s.discriminator))] else [])
        + ListNode("oneOf", s.oneOf) + ListNode("anyOf", s.anyOf) + ListNode("allOf", s.allOf)
        + (if s.typ.Some? then [Field("type", Str(s.typ.value))] else [])
        + PropertiesNode(s.properties)
        + (if s.items.Items? then [Field("items", Node(s.items.value))] else [])
        + ExtraNode(s.extra))
  }

  function ListNode(keyword: string, list: SchemaList): seq<Field>
    decreases list, 1
  {
    if list.Absent? then [] else [Field(keyword, Arr(Nodes(list.value)))]
  }

  function Nodes(ss: seq<Schema>): (r: seq<Json>)
    ensures |r| == |ss| && forall i :: 0 <= i < |ss| ==> r[i] == Node(ss[i])
    decreases ss, 1
  {
    if ss == [] then [] else [Node(ss[0])] + Nodes(ss[1..])
  }

  function PropertiesNode(list: PropertyList): seq<Field>
    decreases list, 1
  {
    if list.NoProperties? then [] else [Field("properties", Obj(Entries(list.value)))]
  }

  /** Named schemas, one document entry each; a document's `components.schemas` read the same way. */
  function Entries(ps: seq<Property>): (r: seq<Field>)
    ensures |r| == |ps| && forall i :: 0 <= i < |ps| ==> r[i] == Field(ps[i].name, Node(ps[i].schema))
    decreases ps, 1
  {
    if ps == [] then [] else [Field(ps[0].name, Node(ps[0].schema))] + Entries(ps[1..])
  }

  function ExtraNode(extra: Extra): seq<Field>
    decreases extra, 1
  {
    match extra
    case Unstated => []
    case Stated(allowed) => [Field("additionalProperties", Bool(allowed))]
    case Typed(schema) => [Field("additionalProperties", Node(schema))]
  }

  // ---------------------------------------------------------------- the walk sees what the generator meets

  lemma {:induction false} FieldReferences(fields: seq<Field>, i: nat)
    requires i < |fields|
    ensures forall x :: x in Order.OwnReference(fields[i]) || x in Order.ReferencesIn(fields[i].value) ==>
              x in Order.ReferencesInFields(fields)
  {
    hide Order.OwnReference, Order.ReferencesIn;
    if i > 0 {
      FieldReferences(fields[1..], i - 1);
      assert fields[1..][i - 1] == fields[i];
    }
  }

  lemma {:induction false} ItemReferences(items: seq<Json>, i: nat)
    requires i < |items|
    ensures forall x :: x in Order.ReferencesIn(items[i]) ==> x in Order.ReferencesInItems(items)
  {
    hide Order.ReferencesIn;
    if i > 0 {
      ItemReferences(items[1..], i - 1);
      assert items[1..][i - 1] == items[i];
    }
  }

  /** A field of the node is seen by the walk over the node. */
  lemma {:induction false} NodeField(s: Schema, f: Field, x: string)
    requires f in Node(s).fields
    requires x in Order.OwnReference(f) || x in Order.ReferencesIn(f.value)
    ensures x in Order.ReferencesIn(Node(s))
  {
    hide Order.OwnReference, Order.ReferencesInFields, Order.ReferencesInItems, ListNode, PropertiesNode, ExtraNode;
    var fields := Node(s).fields;
    var i :| 0 <= i < |fields| && fields[i] == f;
    FieldReferences(fields, i);
  }

  /** Every local reference the generator meets is one the ordering walk follows. */
  lemma {:induction false} VisitedIsWalked(s: Schema, ref: string)
    requires ref in Visited(s) && Order.LocalName(ref).Some?
    ensures Order.LocalName(ref).value in Order.ReferencesIn(Node(s))
    decreases s, 0
  {
    hide Order.LocalName, Order.ReferencesIn, Order.ReferencesInItems, Order.ReferencesInFields;
    var x := Order.LocalName(ref).value;
    if s.ref != "" {
      NodeField(s, Field("$ref", Str(s.ref)), x);
    } else if s.oneOf.Listed? {
      VisitedInAllIsWalked(s.oneOf.value, ref);
      ArrayReferences(Nodes(s.oneOf.value));
      NodeField(s, Field("oneOf", Arr(Nodes(s.oneOf.value))), x);
    } else if s.typ == Some("array") {
      VisitedIsWalked(s.items.value, ref);
      NodeField(s, Field("items", Node(s.items.value)), x);
    } else if s.properties.Properties? {
      VisitedInPropertiesIsWalked(s.properties.value, ref);
      ObjectReferences(Entries(s.properties.value));
      NodeField(s, Field("properties", Obj(Entries(s.properties.value))), x);
    } else {
      VisitedIsWalked(s.extra.schema, ref);
      NodeField(s, Field("additionalProperties", Node(s.extra.schema)), x);
    }
  }

  lemma {:induction false} ArrayReferences(items: seq<Json>)
    ensures Order.ReferencesIn(Arr(items)) == Order.ReferencesInItems(items)
  {
  }

  lemma {:induction false} ObjectReferences(fields: seq<Field>)
    ensures Order.ReferencesIn(Obj(fields)) == Order.ReferencesInFields(fields)
  {
  }

  lemma {:induction false} VisitedInAllIsWalked(ss: seq<Schema>, ref: string)
    requires ref in VisitedInAll(ss) && Order.LocalName(ref).Some?
    ensures Order.LocalName(ref).value in Order.ReferencesInItems(Nodes(ss))
    decreases ss, 1
  {
    hide Order.LocalName, Node, Visited;
    if ref in Visited(ss[0]) {
      VisitedIsWalked(ss[0], ref);
    } else {
      VisitedInAllIsWalked(ss[1..], ref);
    }
    assert Nodes(ss)[1..] == Nodes(ss[1..]);
  }

  lemma {:induction false} VisitedInPropertiesIsWalked(ps: seq<Property>, ref: string)
    requires ref in VisitedInProperties(ps) && Order.LocalName(ref).Some?
    ensures Order.LocalName(ref).value in Order.ReferencesInFields(Entries(ps))
    decreases ps, 1
  {
    hide Order.LocalName, Node, Visited;
    if ref in Visited(ps[0].schema) {
      VisitedIsWalked(ps[0].schema, ref);
    } else {
      VisitedInPropertiesIsWalked(ps[1..], ref);
    }
    assert Entries(ps)[1..] == Entries(ps[1..]);
  }

  lemma {:induction false} NameIsLast(name: string)
    requires '/' !in name
    ensures LastSegment(Order.SCHEMA_PREFIX + name) == name
  {
    var s1 := "schemas" + ['/'] + name;
    var s2 := "components" + ['/'] + s1;
    assert Order.SCHEMA_PREFIX + name == "#" + ['/'] + s2;
    SplitCons("#", s2, '/');
    SplitCons("components", s1, '/');
    SplitCons("schemas", name, '/');
    SplitPlain(name, '/');
  }

  /** A local reference ends in the name of its schema. */
  lemma {:induction false} LocalNameIsLast(ref: string)
    requires Order.LocalName(ref).Some?
    ensures LastSegment(ref) == Order.LocalName(ref).value
  {
    hide LastSegment;
    var name := Order.LocalName(ref).value;
    assert ref == Order.SCHEMA_PREFIX + name;
    NameIsLast(name);
  }

  // ---------------------------------------------------------------- main results

  /** No constant is declared twice, and each mentions only constants declared before it. */
  ghost predicate Loads(prog: seq<ZConst>) {
    && (forall i, j :: 0 <= i < j < |prog| ==> prog[i].ident != prog[j].ident)
    && forall i, id :: 0 <= i < |prog| && id in Idents(prog[i].zod) ==> FindConst(prog, i, id).Some?
  }

  predicate NamesSchema(doc: Document, n: nat, name: string)
    requires n <= |doc|
  {
    exists j :: 0 <= j < n && doc[j].name == name
  }

  /** One of the first n schemas is emitted under this identifier. */
  predicate Emits(doc: Document, n: nat, ident: string)
    requires n <= |doc|
  {
    exists j :: 0 <= j < n && ConstName(doc[j].name) == ident
  }

  /** The constant a reference compiles to. */
  function Target(ref: string): string {
    ConstName(LastSegment(ref))
  }

  ghost predicate DeclaredBeforeUse(doc: Document) {
    forall i, ref :: 0 <= i < |doc| && ref in Visited(doc[i].schema) ==> Emits(doc, i, Target(ref))
  }

  /**
   * The generated module loads exactly when every constant an expression mentions is emitted before it:
   * a reference to a later schema, or to none, stops it.
   */
  lemma {:induction false} LoadsExactlyWhenDeclaredFirst(doc: Document, tolerant: set<string>)
    requires Render(doc, tolerant).Success? && DistinctIdents(doc)
    ensures Loads(Render(doc, tolerant).value) <==> DeclaredBeforeUse(doc)
  {
    hide Compile, Render, Idents, Visited, Target, ConstName, LastSegment;
    var prog := Render(doc, tolerant).value;
    forall i | 0 <= i < |doc| ensures MentionsTargets(prog[i].zod, doc[i].schema) {
      CompiledIdents(doc[i].schema, doc[i].name in tolerant);
      TargetsOf(prog[i].zod, doc[i].schema);
    }
    forall i, ref | 0 <= i < |doc| && ref in Visited(doc[i].schema)
      ensures FindConst(prog, i, Target(ref)).Some? <==> Emits(doc, i, Target(ref))
    {
      FoundIffEmitted(doc, prog, i, Target(ref));
    }
  }

  ghost predicate MentionsTargets(z: Zod, s: Schema) {
    && (forall ref :: ref in Visited(s) ==> Target(ref) in Idents(z))
    && (forall id :: id in Idents(z) ==> exists ref :: ref in Visited(s) && Target(ref) == id)
  }

  lemma {:induction false} TargetsOf(z: Zod, s: Schema)
    requires Idents(z) == IdentsFor(Visited(s))
    ensures MentionsTargets(z, s)
  {
    hide Idents, Visited, ConstName, LastSegment;
  }

  lemma {:induction false} FoundIffEmitted(doc: Document, prog: seq<ZConst>, n: nat, ident: string)
    requires n <= |doc| == |prog| && forall i :: 0 <= i < |doc| ==> prog[i].ident == ConstName(doc[i].name)
    ensures FindConst(prog, n, ident).Some? <==> Emits(doc, n, ident)
  {
    hide ConstName;
    if Emits(doc, n, ident) {
      var k :| 0 <= k < n && ConstName(doc[k].name) == ident;
      assert prog[k].ident == ident;
    }
  }

  /** The document's schemas in the order the reordered section lists them. */
  function Reordered(doc: Document): (r: Document)
    ensures |r| == |Order.InOrder(Entries(doc))|
  {
    var ordered := Order.InOrder(Entries(doc));
    seq(|ordered|, i requires 0 <= i < |ordered| =>
      var at := FindSchema(doc, |doc|, ordered[i].name);
      if at.Some? then doc[at.value] else Property(ordered[i].name, AnySchema()))
  }

  function AnySchema(): Schema {
    Schema("", None, Absent, "", Absent, Absent, None, [], NoProperties, NoItems, Unstated)
  }

  lemma {:induction false} OrderedEntry(doc: Document, i: nat) returns (k: nat)
    requires Order.Named(Entries(doc)) && i < |Order.InOrder(Entries(doc))|
    ensures k < |doc| && Entries(doc)[k] == Order.InOrder(Entries(doc))[i]
  {
    hide Order.InOrder, Entries;
    var items, ordered := Entries(doc), Order.InOrder(Entries(doc));
    Order.InOrderPermutes(items);
    assert ordered[i] in multiset(items);
    k :| 0 <= k < |items| && items[k] == ordered[i];
  }

  lemma {:induction false} ReorderedAt(doc: Document, i: nat)
    requires Order.Named(Entries(doc)) && i < |Reordered(doc)|
    ensures Reordered(doc)[i] in doc
    ensures Field(Reordered(doc)[i].name, Node(Reordered(doc)[i].schema)) == Order.InOrder(Entries(doc))[i]
  {
    hide Order.InOrder, Node;
    var items, ordered := Entries(doc), Order.InOrder(Entries(doc));
    var k := OrderedEntry(doc, i);
    var at := FindSchema(doc, |doc|, ordered[i].name);
    assert doc[k].name == ordered[i].name;
    assert items[at.value].name == items[k].name;
  }

  lemma {:induction false} ReorderedHas(doc: Document, p: Property)
    requires Order.Named(Entries(doc)) && p in doc
    ensures p in Reordered(doc)
  {
    hide Order.InOrder, Node, Reordered, Order.Named;
    var items, ordered := Entries(doc), Order.InOrder(Entries(doc));
    Order.InOrderPermutes(items);
    var k :| 0 <= k < |doc| && doc[k] == p;
    assert items[k] in multiset(ordered);
    var i :| 0 <= i < |ordered| && ordered[i] == items[k];
    ReorderedAt(doc, i);
    OnePropertyPerName(doc, Reordered(doc)[i], p);
  }

  lemma {:induction false} OnePropertyPerName(doc: Document, a: Property, b: Property)
    requires Order.Named(Entries(doc)) && a in doc && b in doc && a.name == b.name
    ensures a == b
  {
    hide Node, Entries;
    var k :| 0 <= k < |doc| && doc[k] == a;
    var m :| 0 <= m < |doc| && doc[m] == b;
    assert Entries(doc)[k].name == doc[k].name && Entries(doc)[m].name == doc[m].name;
  }

  /** The reordered document is the section's own schemas, each as it was. */
  lemma {:induction false} ReorderedReadsBack(doc: Document)
    requires Order.Named(Entries(doc))
    ensures Entries(Reordered(doc)) == Order.InOrder(Entries(doc))
    ensures Order.Named(Entries(Reordered(doc)))
    ensures multiset(Reordered(doc)) == multiset(doc)
  {
    hide Order.InOrder, Node, Reordered;
    var after := Reordered(doc);
    Order.InOrderPermutes(Entries(doc));
    forall i | 0 <= i < |after|
      ensures after[i] in doc && Entries(after)[i] == Order.InOrder(Entries(doc))[i]
    {
      ReorderedAt(doc, i);
    }
    assert Entries(after) == Order.InOrder(Entries(doc));
    forall p | p in doc ensures p in after {
      ReorderedHas(doc, p);
    }
    DistinctByName(doc);
    DistinctByName(after);
    SameElementsPermute(after, doc);
  }

  lemma {:induction false} DistinctByName(doc: Document)
    requires Order.Named(Entries(doc))
    ensures Distinct(doc)
  {
    hide Node;
    forall i, j | 0 <= i < j < |doc| ensures doc[i] != doc[j] {
      assert Entries(doc)[i].name != Entries(doc)[j].name;
    }
  }

  /** The walk does not follow this reference: its name is not one run of word characters, or no schema has it. */
  predicate IsMissed(doc: Document, ref: string) {
    Order.LocalName(ref).None? || !NamesSchema(doc, |doc|, Order.LocalName(ref).value)
  }

  /** A reference the walk cannot settle: it misses it, or the schema it names leads back to the user. */
  ghost predicate Unsettled(doc: Document, user: string, ref: string) {
    IsMissed(doc, ref) || Order.Reaches(Entries(doc), Order.LocalName(ref).value, user)
  }

  ghost predicate UnsettledComeFirst(doc: Document, after: Document) {
    forall i, ref :: 0 <= i < |after| && ref in Visited(after[i].schema) && Unsettled(doc, after[i].name, ref) ==>
      Emits(after, i, Target(ref))
  }

  /**
   * The module generated from a reordered section loads exactly when each reference the walk misses,
   * or that closes a cycle, happens to name a schema that stands earlier.
   */
  lemma {:induction false} ReorderedModuleLoadsExactly(doc: Document, tolerant: set<string>)
    requires DistinctIdents(doc) && Render(Reordered(doc), tolerant).Success?
    ensures Loads(Render(Reordered(doc), tolerant).value) <==> UnsettledComeFirst(doc, Reordered(doc))
  {
    hide Render, Node, Visited, Target, Emits, Unsettled, Loads, Reordered, Entries, DistinctIdents, Order.InOrder,
         Order.Named;
    var after := Reordered(doc);
    IdentsAreNames(doc);
    ReorderedReadsBack(doc);
    RearrangedIdents(after, doc);
    LoadsExactlyWhenDeclaredFirst(after, tolerant);
    forall i, ref | 0 <= i < |after| && ref in Visited(after[i].schema) && !Unsettled(doc, after[i].name, ref)
      ensures Emits(after, i, Target(ref))
    {
      SettledComesFirst(doc, i, ref);
    }
  }

  /** A reference the walk follows, to a schema that does not lead back, is emitted before its user. */
  lemma {:induction false} SettledComesFirst(doc: Document, i: nat, ref: string)
    requires Order.Named(Entries(doc)) && Entries(Reordered(doc)) == Order.InOrder(Entries(doc))
    requires multiset(Reordered(doc)) == multiset(doc)
    requires i < |Reordered(doc)| && ref in Visited(Reordered(doc)[i].schema)
    requires !Unsettled(doc, Reordered(doc)[i].name, ref)
    ensures Emits(Reordered(doc), i, Target(ref))
  {
    hide Node, Visited, Order.LocalName, Order.InOrder, Order.Reaches, Order.Uses, Reordered, Order.Named, ConstName,
         LastSegment;
    var after, name := Reordered(doc), Order.LocalName(ref).value;
    ReferenceIsUse(doc, i, ref);
    LocalNameIsLast(ref);
    assert after[i].name == Entries(after)[i].name;
    Order.ReferencesComeFirst(Entries(doc), i, name);
    var f :| f in Entries(after)[..i] && f.name == name;
    var j :| 0 <= j < i && Entries(after)[j] == f;
    assert ConstName(after[j].name) == Target(ref);
  }

  /** Without cycles, and with every reference to a schema named in word characters, the module always loads. */
  lemma {:induction false} ReorderedModuleLoads(doc: Document, tolerant: set<string>)
    requires DistinctIdents(doc) && Order.Acyclic(Entries(doc)) && Render(Reordered(doc), tolerant).Success?
    requires forall i, ref :: 0 <= i < |doc| && ref in Visited(doc[i].schema) ==> !IsMissed(doc, ref)
    ensures Loads(Render(Reordered(doc), tolerant).value)
  {
    hide Render, Node, Visited, Target, Emits, Loads, Reordered, Entries, DistinctIdents, Order.InOrder, Order.Named,
         Order.Uses, Order.Reaches, Order.LocalName;
    var after := Reordered(doc);
    IdentsAreNames(doc);
    ReorderedReadsBack(doc);
    ReorderedModuleLoadsExactly(doc, tolerant);
    forall i, ref | 0 <= i < |after| && ref in Visited(after[i].schema) ensures !Unsettled(doc, after[i].name, ref) {
      assert after[i] in multiset(doc);
      var k :| 0 <= k < |doc| && doc[k] == after[i];
      assert ref in Visited(doc[k].schema);
      KnownIsUse(doc, i, ref);
      assert !Order.Reaches(Entries(doc), Order.LocalName(ref).value, after[i].name);
    }
  }

  lemma {:induction false} KnownIsUse(doc: Document, i: nat, ref: string)
    requires Order.Named(Entries(doc)) && Entries(Reordered(doc)) == Order.InOrder(Entries(doc))
    requires multiset(Reordered(doc)) == multiset(doc)
    requires i < |Reordered(doc)| && ref in Visited(Reordered(doc)[i].schema) && !IsMissed(doc, ref)
    ensures Order.Uses(Entries(doc), Reordered(doc)[i].name, Order.LocalName(ref).value)
  {
    hide Node, Visited, Order.LocalName, Order.InOrder, Order.Uses, Reordered, Order.Named;
    assert Reordered(doc)[i].name == Entries(Reordered(doc))[i].name;
    ReferenceIsUse(doc, i, ref);
  }

  lemma {:induction false} IdentsAreNames(doc: Document)
    requires DistinctIdents(doc)
    ensures Order.Named(Entries(doc))
  {
    hide Node, ConstName;
    forall i, j | 0 <= i < j < |doc| ensures Entries(doc)[i].name != Entries(doc)[j].name {
      assert ConstName(doc[i].name) != ConstName(doc[j].name);
    }
  }

  lemma {:induction false} OneOfEachIdent(doc: Document, a: Property, b: Property)
    requires DistinctIdents(doc) && a in doc && b in doc && ConstName(a.name) == ConstName(b.name)
    ensures a == b
  {
    hide ConstName;
    var i :| 0 <= i < |doc| && doc[i] == a;
    var j :| 0 <= j < |doc| && doc[j] == b;
  }

  lemma {:induction false} IdentsAreDistinct(doc: Document)
    requires DistinctIdents(doc)
    ensures Distinct(doc)
  {
    hide ConstName;
    forall i, j | 0 <= i < j < |doc| ensures doc[i] != doc[j] {
      assert ConstName(doc[i].name) != ConstName(doc[j].name);
    }
  }

  lemma {:induction false} SameMembers(order: Document, doc: Document)
    requires multiset(order) == multiset(doc)
    ensures forall p :: p in order <==> p in doc
  {
    assert forall p :: p in order <==> p in multiset(order);
  }

  lemma {:induction false} RearrangedIdents(order: Document, doc: Document)
    requires DistinctIdents(doc) && multiset(order) == multiset(doc)
    ensures DistinctIdents(order)
  {
    hide ConstName, DistinctIdents;
    IdentsAreDistinct(doc);
    DistinctCounts(doc);
    CountsAreDistinct(order);
    SameMembers(order, doc);
    if !DistinctIdents(order) {
      var i, j := SameIdent(order);
      OneOfEachIdent(doc, order[i], order[j]);
      assert false;
    }
  }

  lemma {:induction false} SameIdent(doc: Document) returns (i: nat, j: nat)
    requires !DistinctIdents(doc)
    ensures i < j < |doc| && ConstName(doc[i].name) == ConstName(doc[j].name)
  {
    hide ConstName;
    i, j :| 0 <= i < j < |doc| && ConstName(doc[i].name) == ConstName(doc[j].name);
  }

  /** A reference the walk follows is a use in its sense. */
  lemma {:induction false} ReferenceIsUse(doc: Document, i: nat, ref: string)
    requires Order.Named(Entries(doc)) && Entries(Reordered(doc)) == Order.InOrder(Entries(doc))
    requires multiset(Reordered(doc)) == multiset(doc)
    requires i < |Reordered(doc)| && ref in Visited(Reordered(doc)[i].schema) && !IsMissed(doc, ref)
    ensures Order.Uses(Entries(doc), Order.InOrder(Entries(doc))[i].name, Order.LocalName(ref).value)
  {
    hide Node, Visited, Order.LocalName, Order.InOrder, Order.ReferencesIn, Reordered, Order.Named, Order.Lookup;
    var after, items := Reordered(doc), Entries(doc);
    VisitedIsWalked(after[i].schema, ref);
    assert after[i] in multiset(doc);
    var k :| 0 <= k < |doc| && doc[k] == after[i];
    Order.LookupItem(items, k);
    assert items[k] == Entries(after)[i];
    var m :| 0 <= m < |doc| && doc[m].name == Order.LocalName(ref).value;
    assert items[m] in items;
  }

  // ---------------------------------------------------------------- a name the walk does not read

  function RefSchema(ref: string): Schema {
    Schema(ref, None, Absent, "", Absent, Absent, None, [], NoProperties, NoItems, Unstated)
  }

  function TextSchema(): Schema {
    Schema("", None, Absent, "", Absent, Absent, Some("string"), [], NoProperties, NoItems, Unstated)
  }

  /** A first schema that refers to a second one, by the second one's own name. */
  function TwoSchemas(first: string, second: string): Document {
    [Property(first, RefSchema(Order.SCHEMA_PREFIX + second)), Property(second, TextSchema())]
  }

  /**
   * Where ordering fails: for any name with a character outside words (`b-c`, `b.c`), a schema that
   * refers to it from before is left before it, and the module uses the constant too early.
   */
  lemma {:induction false} UnreadNameIsUsedTooEarly(first: string, second: string, tolerant: set<string>)
    requires '/' !in second && exists c :: c in second && !Order.IsWordChar(c)
    requires DistinctIdents(TwoSchemas(first, second))
    ensures var doc := TwoSchemas(first, second);
            && Order.Acyclic(Entries(doc))
            && Order.InOrder(Entries(doc)) == Entries(doc) && Reordered(doc) == doc
            && Render(doc, tolerant).Success?
            && !Loads(Render(doc, tolerant).value)
  {
    hide DistinctIdents, Order.InOrder, Order.Reaches, Reordered, Loads, Order.Acyclic, Render;
    var doc := TwoSchemas(first, second);
    var ref := Order.SCHEMA_PREFIX + second;
    UnreadReference(second);
    IdentsAreNames(doc);
    NothingIsUsed(first, second);
    NoUseIsOrdered(Entries(doc));
    SameOrderSameDocument(doc);
    TwoSchemasRender(first, second, tolerant);
    LoadsExactlyWhenDeclaredFirst(doc, tolerant);
    assert ref in Visited(doc[0].schema) && !Emits(doc, 0, Target(ref));
  }

  lemma {:induction false} UnreadReference(name: string)
    requires exists c :: c in name && !Order.IsWordChar(c)
    ensures Order.LocalName(Order.SCHEMA_PREFIX + name) == None
  {
    assert (Order.SCHEMA_PREFIX + name)[|Order.SCHEMA_PREFIX|..] == name;
  }

  lemma {:induction false} NothingIsUsed(first: string, second: string)
    requires Order.LocalName(Order.SCHEMA_PREFIX + second) == None
    ensures forall u, v :: !Order.Uses(Entries(TwoSchemas(first, second)), u, v)
  {
    hide Order.LocalName;
    var items := Entries(TwoSchemas(first, second));
    var ref := Order.SCHEMA_PREFIX + second;
    PlainNode(RefSchema(ref), Field("$ref", Str(ref)));
    PlainNode(TextSchema(), Field("type", Str("string")));
    assert items[0].value == Obj([Field("$ref", Str(ref))]) && items[1].value == Obj([Field("type", Str("string"))]);
    NoReference(Field("$ref", Str(ref)));
    NoReference(Field("type", Str("string")));
    assert forall f :: f in items ==> Order.ReferencesIn(f.value) == [];
    assert forall f :: f in items ==> Order.ReferencesOf(f) == [];
  }

  lemma {:induction false} PlainNode(s: Schema, f: Field)
    requires s.ref != "" ==> s == RefSchema(s.ref) && f == Field("$ref", Str(s.ref))
    requires s.ref == "" ==> s == TextSchema() && f == Field("type", Str("string"))
    ensures Node(s) == Obj([f])
  {
    assert ListNode("oneOf", s.oneOf) == [] && ListNode("anyOf", s.anyOf) == [] && ListNode("allOf", s.allOf) == [];
    assert PropertiesNode(s.properties) == [] && ExtraNode(s.extra) == [];
    assert Node(s).fields == [f];
  }

  lemma {:induction false} NoReference(f: Field)
    requires f.value.Str? && (f.name == "$ref" ==> Order.LocalName(f.value.s) == None)
    ensures Order.ReferencesIn(Obj([f])) == []
  {
    hide Order.LocalName;
    assert [f][1..] == [] && Order.OwnReference(f) == [] && Order.ReferencesIn(f.value) == [];
    assert Order.ReferencesInFields([f]) == [];
  }

  lemma {:induction false} NoUseIsOrdered(items: Order.Schemas)
    requires Order.Named(items) && forall u, v :: !Order.Uses(items, u, v)
    ensures Order.Acyclic(items) && Order.InOrder(items) == items
  {
    hide Order.Uses, Order.InOrder;
    Order.UnchangedExactlyWhenOrdered(items);
    assert Order.AlreadyOrdered(items);
  }

  lemma {:induction false} SameOrderSameDocument(doc: Document)
    requires Order.Named(Entries(doc)) && Order.InOrder(Entries(doc)) == Entries(doc)
    ensures Reordered(doc) == doc
  {
    hide Node, Order.InOrder, Reordered, Order.Named;
    ReorderedReadsBack(doc);
    forall i | 0 <= i < |doc| ensures Reordered(doc)[i] == doc[i] {
      ReorderedAt(doc, i);
      assert Entries(Reordered(doc))[i].name == Entries(doc)[i].name;
      OnePropertyPerName(doc, Reordered(doc)[i], doc[i]);
    }
  }

  lemma {:induction false} TwoSchemasRender(first: string, second: string, tolerant: set<string>)
    ensures Render(TwoSchemas(first, second), tolerant).Success?
  {
    hide ConstName, LastSegment;
    var doc := TwoSchemas(first, second);
    assert doc[1..][1..] == [];
    assert Compile(doc[0].schema, first in tolerant).Success? && Compile(doc[1].schema, second in tolerant).Success?;
    assert Render(doc[1..], tolerant).Success?;
  }
}
