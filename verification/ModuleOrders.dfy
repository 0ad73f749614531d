/** Which sections have an order in which their generated module loads. */
module ModuleOrders {
  import opened Basics
  import opened JsonTree
  import opened ZodCompiler
  import opened ZodModule
  import ZodFaithful
  import Order = SchemaOrder
  import Waves
  import SchemaReferences
  import JsonPaths

  // ---------------------------------------------------------------- orders, references and circles

  /** The section's schemas, rearranged so that the module generated from them loads. */
  ghost predicate LoadsInOrder(order: Document, doc: Document, tolerant: set<string>) {
    && multiset(order) == multiset(doc)
    && Render(order, tolerant).Success? && Loads(Render(order, tolerant).value)
  }

  /** Every reference the emitter meets compiles to the constant of some schema of the section. */
  ghost predicate Complete(doc: Document) {
    forall p, ref :: p in doc && ref in Visited(p.schema) ==> Emits(doc, |doc|, Target(ref))
  }

  /** The expression for `a` mentions the constant of `b`. */
  predicate Mentions(a: Property, b: Property) {
    ConstName(b.name) in IdentsFor(Visited(a.schema))
  }

  /** Schemas each of which mentions the next, ending with the one they start with. */
  ghost predicate IsCircle(doc: Document, c: seq<Property>) {
    && |c| >= 2 && c[0] == c[|c| - 1]
    && (forall i :: 0 <= i < |c| ==> c[i] in doc)
    && forall i, j :: 0 <= i && j == i + 1 < |c| ==> Mentions(c[i], c[j])
  }

  // ---------------------------------------------------------------- an order that loads has no circle

  /** Following the references of an order that loads leads further and further towards its start. */
  lemma {:induction false} Descends(order: Document, c: seq<Property>, k: nat) returns (from: nat, to: nat)
    requires DistinctIdents(order) && DeclaredBeforeUse(order) && IsCircle(order, c) && 1 <= k < |c|
    ensures to < from < |order| && order[from] == c[0] && order[to] == c[k]
  {
    hide ConstName, Visited, LastSegment, DistinctIdents, DeclaredBeforeUse;
    if k == 1 {
      from :| 0 <= from < |order| && order[from] == c[0];
      to := MentionedEarlier(order, from, c[1]);
    } else {
      var before: nat;
      from, before := Descends(order, c, k - 1);
      to := MentionedEarlier(order, before, c[k]);
    }
  }

  lemma {:induction false} MentionedEarlier(order: Document, i: nat, b: Property) returns (j: nat)
    requires DistinctIdents(order) && DeclaredBeforeUse(order)
    requires i < |order| && b in order && Mentions(order[i], b)
    ensures j < i && order[j] == b
  {
    hide ConstName, Visited, LastSegment, DistinctIdents;
    var ref :| ref in Visited(order[i].schema) && ConstName(LastSegment(ref)) == ConstName(b.name);
    assert Target(ref) == ConstName(b.name);
    assert Emits(order, i, Target(ref));
    j :| 0 <= j < i && ConstName(order[j].name) == ConstName(b.name);
    OneOfEachIdent(order, order[j], b);
  }

  lemma {:induction false} NoOrderOfACircleLoads(order: Document, c: seq<Property>)
    requires DistinctIdents(order) && IsCircle(order, c)
    ensures !DeclaredBeforeUse(order)
  {
    hide ConstName, DeclaredBeforeUse, Mentions;
    if DeclaredBeforeUse(order) {
      var from, to := Descends(order, c, |c| - 1);
      assert false;
    }
  }

  lemma {:induction false} LoadingNeeds(order: Document, doc: Document)
    requires DistinctIdents(doc) && multiset(order) == multiset(doc) && DeclaredBeforeUse(order)
    ensures Complete(doc) && forall c :: !IsCircle(doc, c)
  {
    hide ConstName, Visited, Target, DistinctIdents, Mentions;
    SameMembers(order, doc);
    RearrangedIdents(order, doc);
    forall p, ref | p in doc && ref in Visited(p.schema) ensures Emits(doc, |doc|, Target(ref)) {
      var i :| 0 <= i < |order| && order[i] == p;
      assert Emits(order, i, Target(ref));
      var j :| 0 <= j < i && ConstName(order[j].name) == Target(ref);
      assert order[j] in doc;
    }
    forall c ensures !IsCircle(doc, c) {
      if IsCircle(doc, c) {
        assert IsCircle(order, c);
        NoOrderOfACircleLoads(order, c);
      }
    }
  }

  // ---------------------------------------------------------------- a section without one has an order

  /** The identifiers of the section's constants, in its own order. */
  function Constants(doc: Document): (r: seq<string>)
    ensures |r| == |doc| && forall i :: 0 <= i < |doc| ==> r[i] == ConstName(doc[i].name)
  {
    seq(|doc|, i requires 0 <= i < |doc| => ConstName(doc[i].name))
  }

  /** The constants of the section that the expression behind this one mentions. */
  function MentionedBy(doc: Document, ident: string): seq<string> {
    var at := FindIdent(doc, |doc|, ident);
    if at.None? then []
    else
      var targets := IdentsFor(Visited(doc[at.value].schema));
      Filter(Constants(doc), v => v in targets)
  }

  /** The constants as steps of a plan: each waits for those it mentions. */
  function Steps(doc: Document): Waves.Entries {
    Waves.Entries(Constants(doc), map u | u in Constants(doc) :: Waves.WaveEntry(Some(MentionedBy(doc, u))))
  }

  /** The schemas behind these constants. */
  function Arranged(doc: Document, idents: seq<string>): (r: Document)
    requires forall u :: u in idents ==> FindIdent(doc, |doc|, u).Some?
    ensures |r| == |idents| && forall i :: 0 <= i < |r| ==> r[i] in doc && ConstName(r[i].name) == idents[i]
  {
    seq(|idents|, i requires 0 <= i < |idents| => doc[FindIdent(doc, |doc|, idents[i]).value])
  }

  lemma {:induction false} ConstantsAreFound(doc: Document, u: string)
    ensures u in Constants(doc) <==> FindIdent(doc, |doc|, u).Some?
    ensures u in Constants(doc) <==> Emits(doc, |doc|, u)
  {
    hide ConstName;
    if u in Constants(doc) {
      var i :| 0 <= i < |doc| && Constants(doc)[i] == u;
    }
    if i :| 0 <= i < |doc| && ConstName(doc[i].name) == u {
      assert Constants(doc)[i] == u;
    }
  }

  lemma {:induction false} ConstantsAreDistinct(doc: Document)
    requires DistinctIdents(doc)
    ensures Distinct(Constants(doc))
  {
    hide ConstName;
  }

  lemma {:induction false} ArrangedPermutes(doc: Document, idents: seq<string>)
    requires DistinctIdents(doc) && multiset(idents) == multiset(Constants(doc))
    requires forall u :: u in idents ==> FindIdent(doc, |doc|, u).Some?
    ensures Distinct(idents) && multiset(Arranged(doc, idents)) == multiset(doc)
  {
    hide ConstName, DistinctIdents, Arranged, Constants;
    ConstantsAreDistinct(doc);
    DistinctCounts(Constants(doc));
    CountsAreDistinct(idents);
    var order := Arranged(doc, idents);
    forall p | p in doc ensures p in order {
      var i :| 0 <= i < |doc| && doc[i] == p;
      assert Constants(doc)[i] in multiset(idents);
      var j :| 0 <= j < |idents| && idents[j] == Constants(doc)[i];
      OneOfEachIdent(doc, order[j], p);
    }
    IdentsAreDistinct(doc);
    SameElementsPermute(order, doc);
  }

  /** What stands in an earlier wave stands earlier in the flattened plan. */
  lemma {:induction false} EarlierWaveComesFirst(waves: seq<seq<string>>, a: nat, b: nat, i: nat, y: string) returns (j: nat)
    requires Distinct(Flatten(waves)) && b < a < |waves| && i < |Flatten(waves)|
    requires Flatten(waves)[i] in waves[a] && y in waves[b]
    ensures j < i && Flatten(waves)[j] == y
  {
    var first, rest := waves[0], Flatten(waves[1..]);
    assert Flatten(waves) == first + rest;
    assert waves[1..][a - 1] == waves[a];
    assert Flatten(waves)[i] in rest;
    var k :| 0 <= k < |rest| && rest[k] == Flatten(waves)[i];
    assert (first + rest)[|first| + k] == Flatten(waves)[i];
    assert i == |first| + k;
    if b == 0 {
      j :| 0 <= j < |first| && first[j] == y;
    } else {
      assert waves[1..][b - 1] == waves[b];
      forall p, q | 0 <= p < q < |rest| ensures rest[p] != rest[q] {
        assert (first + rest)[|first| + p] == rest[p] && (first + rest)[|first| + q] == rest[q];
      }
      j := EarlierWaveComesFirst(waves[1..], a - 1, b - 1, k, y);
      j := j + |first|;
    }
  }

  lemma {:induction false} MentionIsAWait(doc: Document, u: string, ref: string)
    requires u in Constants(doc) && Emits(doc, |doc|, Target(ref))
    requires var at := FindIdent(doc, |doc|, u); at.Some? && ref in Visited(doc[at.value].schema)
    ensures Steps(doc).Waits(u, Target(ref))
  {
    hide ConstName, Visited, LastSegment, Constants;
    ConstantsAreFound(doc, Target(ref));
    assert Target(ref) in MentionedBy(doc, u);
  }

  /** The plan, flattened, is an order in which every constant comes before its users. */
  lemma {:induction false} PlannedOrderLoads(doc: Document) returns (order: Document)
    requires DistinctIdents(doc) && Complete(doc) && Waves.Plan(Steps(doc), Constants(doc)).Success?
    ensures multiset(order) == multiset(doc) && DeclaredBeforeUse(order)
  {
    hide ConstName, Visited, Target, DistinctIdents, Waves.Plan, Constants, Arranged, MentionedBy;
    var e, waves := Steps(doc), Waves.Plan(Steps(doc), Constants(doc)).value;
    Waves.PlanKeepsEveryStep(e, Constants(doc));
    Waves.PlanIsLayering(e);
    var idents := Flatten(waves);
    forall u | u in idents ensures u in Constants(doc) && FindIdent(doc, |doc|, u).Some? {
      assert u in multiset(Constants(doc));
      ConstantsAreFound(doc, u);
    }
    order := Arranged(doc, idents);
    ArrangedPermutes(doc, idents);
    forall i, ref | 0 <= i < |order| && ref in Visited(order[i].schema) ensures Emits(order, i, Target(ref)) {
      var u := idents[i];
      OneOfEachIdent(doc, order[i], doc[FindIdent(doc, |doc|, u).value]);
      MentionIsAWait(doc, u, ref);
      var a :| 0 <= a < |waves| && u in waves[a];
      var b :| 0 <= b < a && Target(ref) in waves[b];
      var j := EarlierWaveComesFirst(waves, a, b, i, Target(ref));
      assert ConstName(order[j].name) == Target(ref);
    }
  }

  /** A circle of waiting steps is a circle of schemas. */
  lemma {:induction false} WaitingCircle(doc: Document, c: seq<string>)
    requires Steps(doc).IsCycle(c)
    ensures exists d :: IsCircle(doc, d)
  {
    hide ConstName, Visited, Constants, IdentsFor, MentionedBy;
    forall u | u in c ensures FindIdent(doc, |doc|, u).Some? {
      ConstantsAreFound(doc, u);
    }
    var d := seq(|c|, i requires 0 <= i < |c| => doc[FindIdent(doc, |doc|, c[i]).value]);
    forall i, j | 0 <= i && j == i + 1 < |c| ensures Mentions(d[i], d[j]) {
      assert Steps(doc).Waits(c[i], c[j]);
      WaitIsAMention(doc, c[i], c[j]);
    }
    assert IsCircle(doc, d);
  }

  lemma {:induction false} WaitIsAMention(doc: Document, u: string, v: string)
    requires Steps(doc).Waits(u, v)
    ensures FindIdent(doc, |doc|, u).Some? && FindIdent(doc, |doc|, v).Some?
    ensures Mentions(doc[FindIdent(doc, |doc|, u).value], doc[FindIdent(doc, |doc|, v).value])
  {
    hide ConstName, Visited, Constants, IdentsFor;
    ConstantsAreFound(doc, u);
    ConstantsAreFound(doc, v);
  }

  // ---------------------------------------------------------------- main results

  lemma {:induction false} OrderRenders(order: Document, doc: Document, tolerant: set<string>)
    requires multiset(order) == multiset(doc) && Render(doc, tolerant).Success?
    ensures Render(order, tolerant).Success?
  {
    hide Compile, Render;
    SameMembers(order, doc);
    forall i | 0 <= i < |order| ensures Compile(order[i].schema, order[i].name in tolerant).Success? {
      assert order[i] in doc;
      var j :| 0 <= j < |doc| && doc[j] == order[i];
    }
    ZodFaithful.DocumentCompiles(order, tolerant);
  }

  /**
   * A section has an order in which its module loads exactly when each of its references names one of
   * its schemas and no schemas mention one another in a circle.
   */
  lemma {:induction false} SomeOrderLoadsExactly(doc: Document, tolerant: set<string>)
    requires DistinctIdents(doc) && Render(doc, tolerant).Success?
    ensures (exists order :: LoadsInOrder(order, doc, tolerant)) <==> Complete(doc) && forall c :: !IsCircle(doc, c)
  {
    hide Render, Loads, Waves.Plan, Complete, IsCircle, DistinctIdents, DeclaredBeforeUse, Steps, Constants;
    if order :| LoadsInOrder(order, doc, tolerant) {
      RearrangedIdents(order, doc);
      LoadsExactlyWhenDeclaredFirst(order, tolerant);
      LoadingNeeds(order, doc);
    }
    if Complete(doc) && forall c :: !IsCircle(doc, c) {
      StepsAreTheConstants(doc);
      Waves.RefusesExactlyCycles(Steps(doc));
      if c :| Steps(doc).IsCycle(c) {
        WaitingCircle(doc, c);
      }
      var order := PlannedOrderLoads(doc);
      OrderRenders(order, doc, tolerant);
      RearrangedIdents(order, doc);
      LoadsExactlyWhenDeclaredFirst(order, tolerant);
      assert LoadsInOrder(order, doc, tolerant);
    }
  }

  lemma {:induction false} StepsAreTheConstants(doc: Document)
    ensures Steps(doc).names == Constants(doc)
  {
  }

  /** No rearranging helps a section with a circle or a reference to nothing: its module never loads. */
  lemma {:induction false} ReorderedNeedsNoCircle(doc: Document, tolerant: set<string>)
    requires DistinctIdents(doc) && Render(Reordered(doc), tolerant).Success?
    requires Loads(Render(Reordered(doc), tolerant).value)
    ensures Complete(doc) && forall c :: !IsCircle(doc, c)
  {
    hide Render, Loads, Complete, IsCircle, DistinctIdents, DeclaredBeforeUse, Reordered, Order.Named, Order.InOrder, Entries;
    IdentsAreNames(doc);
    ReorderedReadsBack(doc);
    RearrangedIdents(Reordered(doc), doc);
    LoadsExactlyWhenDeclaredFirst(Reordered(doc), tolerant);
    LoadingNeeds(Reordered(doc), doc);
  }

  /** The section whose name the walk does not read would load the other way round. */
  lemma {:induction false} AnotherOrderWouldLoad(first: string, second: string, tolerant: set<string>)
    requires '/' !in second && DistinctIdents(TwoSchemas(first, second))
    ensures var doc := TwoSchemas(first, second); LoadsInOrder([doc[1], doc[0]], doc, tolerant)
  {
    hide ConstName, Loads, Render, LastSegment, DistinctIdents;
    var doc := TwoSchemas(first, second);
    var order := [doc[1], doc[0]];
    assert doc == [doc[0]] + [doc[1]] && order == [doc[1]] + [doc[0]];
    TwoSchemasRender(first, second, tolerant);
    OrderRenders(order, doc, tolerant);
    RearrangedIdents(order, doc);
    LoadsExactlyWhenDeclaredFirst(order, tolerant);
    NameIsLast(second);
    assert ConstName(order[0].name) == Target(Order.SCHEMA_PREFIX + second);
  }

  /** The walk follows exactly the references to a schema of the section by a plain name. */
  lemma {:induction false} FollowsExactly(doc: Document, ref: string)
    ensures !IsMissed(doc, ref) <==>
            exists p :: p in doc && SchemaReferences.IsPlainName(p.name) && ref == "#/components/schemas/" + p.name
  {
    hide SchemaReferences.IsPlainName, Order.LocalName;
    forall name
      ensures Order.LocalName(ref) == Some(name) <==>
              ref == "#/components/schemas/" + name && SchemaReferences.IsPlainName(name)
    {
      SchemaReferences.ReadsPlainNames(ref, name);
    }
    if p :| p in doc && SchemaReferences.IsPlainName(p.name) && ref == "#/components/schemas/" + p.name {
      var j :| 0 <= j < |doc| && doc[j] == p;
    }
  }

  lemma {:induction false} PlainReferenceIsUsed(first: string, second: string)
    requires SchemaReferences.IsPlainName(second) && DistinctIdents(TwoSchemas(first, second))
    ensures var items := Entries(TwoSchemas(first, second));
            && Order.Named(items) && Order.Uses(items, first, second)
            && forall v :: !Order.Uses(items, second, v)
  {
    hide ConstName, DistinctIdents, SchemaReferences.IsPlainName, Order.LocalName, Order.Uses;
    var doc, ref := TwoSchemas(first, second), Order.SCHEMA_PREFIX + second;
    var items := Entries(doc);
    IdentsAreNames(doc);
    PlainNode(RefSchema(ref), Field("$ref", Str(ref)));
    PlainNode(TextSchema(), Field("type", Str("string")));
    assert items[0] == Field(first, Obj([Field("$ref", Str(ref))])) && items[1] == Field(second, Obj([Field("type", Str("string"))]));
    RefersInPlace(second);
    SchemaReferences.UsesExactly(items, 0, second);
    assert items[1] in items;
    forall v ensures !Order.Uses(items, second, v) {
      SchemaReferences.UsesExactly(items, 1, v);
      NoRefersInText(v);
    }
  }

  lemma {:induction false} RefersInPlace(name: string)
    requires SchemaReferences.IsPlainName(name)
    ensures SchemaReferences.RefersAt(Obj([Field("$ref", Str(Order.SCHEMA_PREFIX + name))]), "", [0], name)
  {
    hide SchemaReferences.IsPlainName;
    var node := Str(Order.SCHEMA_PREFIX + name);
    OneFieldPlace("$ref", node, node, [0]);
  }

  /** The places of an object with one field: itself, and below the field. */
  lemma {:induction false} OneFieldPlace(key: string, value: Json, node: Json, path: JsonPaths.Path)
    requires value.Str? && node.Str?
    ensures var root := Obj([Field(key, value)]);
            && (JsonPaths.Leads(root, path, node) <==> path == [0] && node == value)
            && (path == [0] ==> JsonPaths.KeyAt(root, path, "") == key)
  {
    if path != [] && path[0] == 0 {
      assert path == [0] + path[1..];
    }
  }

  lemma {:induction false} NoRefersInText(name: string)
    ensures forall path :: !SchemaReferences.RefersAt(Obj([Field("type", Str("string"))]), "", path, name)
  {
    hide SchemaReferences.IsPlainName, JsonPaths.Leads, JsonPaths.KeyAt;
    forall path ensures !SchemaReferences.RefersAt(Obj([Field("type", Str("string"))]), "", path, name) {
      OneFieldPlace("type", Str("string"), Str(Order.SCHEMA_PREFIX + name), path);
    }
  }

  lemma {:induction false} PlainNameHasNoSlash(name: string)
    requires SchemaReferences.IsPlainName(name)
    ensures '/' !in name
  {
  }

  lemma {:induction false} NamesDiffer(first: string, second: string)
    requires DistinctIdents(TwoSchemas(first, second))
    ensures first != second
  {
    hide ConstName;
    assert ConstName(TwoSchemas(first, second)[0].name) != ConstName(TwoSchemas(first, second)[1].name);
  }

  lemma {:induction false} PathBegins(items: Order.Schemas, path: seq<string>)
    requires Order.IsPath(items, path)
    ensures |path| > 1 ==> Order.Uses(items, path[0], path[1])
  {
    hide Order.Uses;
  }

  lemma {:induction false} NeverReachedBack(items: Order.Schemas, from: string, to: string)
    requires from != to && forall v :: !Order.Uses(items, from, v)
    ensures !Order.Reaches(items, from, to)
  {
    hide Order.Uses;
    forall path | Order.IsPath(items, path) && path[0] == from ensures |path| == 1 {
      PathBegins(items, path);
    }
  }

  lemma {:induction false} SwappedPair(first: string, second: string, after: Document)
    requires var doc := TwoSchemas(first, second);
             && multiset(after) == multiset(doc) && Order.Named(Entries(doc))
             && Entries(after) == Order.InOrder(Entries(doc))
             && Order.Uses(Entries(doc), first, second) && !Order.Reaches(Entries(doc), second, first)
    requires first != second
    ensures after == [TwoSchemas(first, second)[1], TwoSchemas(first, second)[0]]
  {
    hide Order.Uses, Order.InOrder, Order.Reaches, Node, Order.Named;
    var doc := TwoSchemas(first, second);
    SameMembers(after, doc);
    assert |after| == |multiset(after)| == |multiset(doc)| == 2;
    assert after[0] in doc && after[1] in doc;
    assert multiset(doc)[doc[0]] == 1 && multiset(doc)[doc[1]] == 1;
    assert after == [after[0], after[1]];
    if after[0] == doc[0] {
      assert Order.InOrder(Entries(doc))[0].name == first;
      Order.ReferencesComeFirst(Entries(doc), 0, second);
      assert false;
    }
  }

  /**
   * What the reordering is for: whatever plain name it has, a schema that stands after its user is moved
   * before it, and the module loads.
   */
  lemma {:induction false} PlainNameIsMovedForward(first: string, second: string, tolerant: set<string>)
    requires SchemaReferences.IsPlainName(second) && DistinctIdents(TwoSchemas(first, second))
    ensures var doc := TwoSchemas(first, second);
            && Reordered(doc) == [doc[1], doc[0]]
            && Render(Reordered(doc), tolerant).Success? && Loads(Render(Reordered(doc), tolerant).value)
  {
    hide ConstName, DistinctIdents, SchemaReferences.IsPlainName, Loads, Render, Order.Uses, Order.InOrder, Reordered, Order.Named;
    var doc := TwoSchemas(first, second);
    var items, after := Entries(doc), Reordered(doc);
    PlainReferenceIsUsed(first, second);
    PlainNameHasNoSlash(second);
    AnotherOrderWouldLoad(first, second, tolerant);
    ReorderedReadsBack(doc);
    NamesDiffer(first, second);
    NeverReachedBack(items, second, first);
    SwappedPair(first, second, after);
  }
}
