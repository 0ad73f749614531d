/** Puts every schema of a section after the schemas it references: a depth-first walk that survives cycles. */
module SchemaOrder {
  import opened Basics
  import opened JsonTree
  import opened Text

  const SCHEMA_PREFIX := "#/components/schemas/"

  predicate IsWordChar(c: char) {
    'a' <= c <= 'z' || 'A' <= c <= 'Z' || '0' <= c <= '9' || c == '_'
  }

  /** The schema a local `$ref` names: one or more word characters after the prefix. */
  function LocalName(ref: string): Option<string> {
    if !StartsWith(ref, SCHEMA_PREFIX) then None
    else
      var name := ref[|SCHEMA_PREFIX|..];
      if name != [] && forall c :: c in name ==> IsWordChar(c) then Some(name) else None
  }

  /** Every schema name one node references, in the order a walk over its pairs meets them. */
  function ReferencesIn(node: Json): seq<string>
    decreases node, 0
  {
    match node
    case Arr(items) => ReferencesInItems(items)
    case Obj(fields) => ReferencesInFields(fields)
    case _ => []
  }

  function ReferencesInItems(items: seq<Json>): seq<string>
    decreases items, 1
  {
    if items == [] then [] else ReferencesIn(items[0]) + ReferencesInItems(items[1..])
  }

  function ReferencesInFields(fields: seq<Field>): seq<string>
    decreases fields, 1
  {
    if fields == [] then []
    else OwnReference(fields[0]) + ReferencesIn(fields[0].value) + ReferencesInFields(fields[1..])
  }

  function OwnReference(f: Field): seq<string> {
    if f.name == "$ref" && f.value.Str? && LocalName(f.value.s).Some?
    then [LocalName(f.value.s).value] else []
  }

  // ---------------------------------------------------------------- the section's schemas

  type Schemas = seq<Field>

  ghost predicate Named(items: Schemas) {
    forall i, j :: 0 <= i < j < |items| ==> items[i].name != items[j].name
  }

  function Names(items: Schemas): set<string> {
    set f | f in items :: f.name
  }

  /** The schema called `name`, by the map built from the items. */
  function Lookup(items: Schemas, name: string): (r: Option<Field>)
    ensures r.Some? <==> name in Names(items)
    ensures r.Some? ==> r.value in items && r.value.name == name
  {
    if items == [] then None
    else if items[|items| - 1].name == name then Some(items[|items| - 1])
    else
      assert forall f :: f in items ==> f in items[..|items| - 1] || f == items[|items| - 1];
      Lookup(items[..|items| - 1], name)
  }

  function ReferencesOf(f: Field): seq<string> {
    Once(ReferencesIn(f.value))
  }

  /** `u` is a known schema and references the known schema `v`. */
  predicate Uses(items: Schemas, u: string, v: string) {
    && v in Names(items)
    && Lookup(items, u).Some?
    && v in ReferencesOf(Lookup(items, u).value)
  }

  /** A walk along references, from its first name to its last. */
  ghost predicate IsPath(items: Schemas, path: seq<string>) {
    && path != []
    && forall i, j :: 0 <= i && j == i + 1 < |path| ==> Uses(items, path[i], path[j])
  }

  ghost predicate Reaches(items: Schemas, u: string, v: string) {
    exists path :: IsPath(items, path) && path[0] == u && path[|path| - 1] == v
  }

  lemma {:induction false} ReachesSelf(items: Schemas, u: string)
    ensures Reaches(items, u, u)
  {
    assert IsPath(items, [u]);
  }

  lemma {:induction false} ReachesOnward(items: Schemas, u: string, v: string, w: string)
    requires Reaches(items, u, v) && Uses(items, v, w)
    ensures Reaches(items, u, w)
  {
    var path :| IsPath(items, path) && path[0] == u && path[|path| - 1] == v;
    assert IsPath(items, path + [w]);
  }

  // ---------------------------------------------------------------- the walk

  datatype Walk = Walk(placed: set<string>, ordered: Schemas)

  function Place(items: Schemas, name: string, w: Walk): (r: Walk)
    ensures w.placed <= r.placed
    decreases Names(items) - w.placed, 0
  {
    if name in w.placed || Lookup(items, name).None? then w
    else
      var pair := Lookup(items, name).value;
      var after := PlaceAll(items, ReferencesOf(pair), w.(placed := w.placed + {name}));
      after.(ordered := after.ordered + [pair])
  }

  function PlaceAll(items: Schemas, names: seq<string>, w: Walk): (r: Walk)
    ensures w.placed <= r.placed
    decreases Names(items) - w.placed, |names|
  {
    if names == [] then w else PlaceAll(items, names[1..], Place(items, names[0], w))
  }

  function NameList(items: Schemas): (r: seq<string>)
    ensures |r| == |items|
    ensures forall i :: 0 <= i < |r| ==> r[i] == items[i].name
  {
    seq(|items|, i requires 0 <= i < |items| => items[i].name)
  }

  /** The schemas in the order the section will declare them. */
  function InOrder(items: Schemas): Schemas {
    PlaceAll(items, NameList(items), Walk({}, [])).ordered
  }

  /** The section's schema map, reordered in place. */
  class SectionSchemas {
    var items: Schemas
    var placed: set<string>
    var ordered: Schemas

    constructor (declared: Schemas)
      ensures items == declared
    {
      items, placed, ordered := declared, {}, [];
    }

    method PlaceSchema(name: string)
      modifies this`placed, this`ordered
      ensures Walk(placed, ordered) == Place(items, name, old(Walk(placed, ordered)))
      decreases Names(items) - placed, 0
    {
      var pair := Lookup(items, name);
      if name in placed || pair.None? {
        return;
      }
      placed := placed + {name};
      var references := ReferencesOf(pair.value);
      ghost var marked := Walk(placed, ordered);
      for i := 0 to |references|
        invariant marked.placed <= placed
        invariant PlaceAll(items, references[i..], Walk(placed, ordered)) == PlaceAll(items, references, marked)
      {
        assert references[i..][1..] == references[i + 1..];
        PlaceSchema(references[i]);
      }
      assert references[|references|..] == [];
      ordered := ordered + [pair.value];
    }

    method OrderByReference()
      modifies this
      ensures items == InOrder(old(items))
    {
      placed, ordered := {}, [];
      var names := NameList(items);
      for i := 0 to |names|
        invariant items == old(items)
        invariant PlaceAll(items, names[i..], Walk(placed, ordered)) == PlaceAll(items, names, Walk({}, []))
      {
        assert names[i..][1..] == names[i + 1..];
        PlaceSchema(names[i]);
      }
      assert names[|names|..] == [];
      items := ordered;
    }
  }

  // ---------------------------------------------------------------- what the walk keeps

  /** Each known reference of an ordered schema stands before it, or leads back to it. */
  ghost predicate ReferencesFirst(items: Schemas, ordered: Schemas) {
    forall i, v :: 0 <= i < |ordered| && Uses(items, ordered[i].name, v) ==>
      v in Names(ordered[..i]) || Reaches(items, v, ordered[i].name)
  }

  /** `open` are the schemas whose references are still being placed. */
  ghost predicate WalkInv(items: Schemas, w: Walk, open: set<string>) {
    && w.placed == Names(w.ordered) + open
    && Names(w.ordered) !! open
    && Named(w.ordered)
    && (forall f :: f in w.ordered ==> Lookup(items, f.name) == Some(f))
    && ReferencesFirst(items, w.ordered)
  }

  /** Every open schema leads to every known one of `names`. */
  ghost predicate Leads(items: Schemas, open: set<string>, names: seq<string>) {
    forall g, n :: g in open && n in names && n in Names(items) ==> Reaches(items, g, n)
  }

  lemma {:induction false} AppendKeeps(items: Schemas, w: Walk, open: set<string>, pair: Field)
    requires WalkInv(items, w, open + {pair.name}) && pair.name !in open
    requires Lookup(items, pair.name) == Some(pair)
    requires forall v :: Uses(items, pair.name, v) ==> v in w.placed
    requires forall g :: g in open ==> Reaches(items, g, pair.name)
    ensures WalkInv(items, w.(ordered := w.ordered + [pair]), open)
  {
    hide Lookup, Uses, Reaches;
    var ordered := w.ordered + [pair];
    ReachesSelf(items, pair.name);
    assert Names(ordered) == Names(w.ordered) + {pair.name} by {
      assert forall f :: f in ordered <==> f in w.ordered || f == pair;
    }
    forall i | 0 <= i < |w.ordered| ensures ordered[i].name != pair.name {
      assert ordered[i] in w.ordered;
    }
    forall i, v | 0 <= i < |ordered| && Uses(items, ordered[i].name, v)
      ensures v in Names(ordered[..i]) || Reaches(items, v, ordered[i].name)
    {
      if i < |w.ordered| {
        assert ordered[..i] == w.ordered[..i];
      } else {
        assert ordered[..i] == w.ordered;
      }
    }
  }

  lemma {:induction false} PlaceKeeps(items: Schemas, name: string, w: Walk, open: set<string>)
    requires WalkInv(items, w, open) && Leads(items, open, [name])
    ensures WalkInv(items, Place(items, name, w), open)
    ensures name in Names(items) ==> name in Place(items, name, w).placed
    decreases Names(items) - w.placed, 0
  {
    hide Lookup, ReferencesFirst, Named, Reaches, ReferencesOf;
    if name !in w.placed && Lookup(items, name).Some? {
      var pair := Lookup(items, name).value;
      var marked := w.(placed := w.placed + {name});
      var references := ReferencesOf(pair);
      assert WalkInv(items, marked, open + {name});
      forall g, n | g in open + {name} && n in references && n in Names(items) ensures Reaches(items, g, n) {
        if g == name {
          ReachesSelf(items, name);
        } else {
          assert name in [name];
        }
        ReachesOnward(items, g, name, n);
      }
      PlaceAllKeeps(items, references, marked, open + {name});
      var after := PlaceAll(items, references, marked);
      forall g | g in open ensures Reaches(items, g, name) {
        assert name in [name];
      }
      AppendKeeps(items, after, open, pair);
    }
  }

  lemma {:induction false} PlaceAllKeeps(items: Schemas, names: seq<string>, w: Walk, open: set<string>)
    requires WalkInv(items, w, open) && Leads(items, open, names)
    ensures WalkInv(items, PlaceAll(items, names, w), open)
    ensures forall n :: n in names && n in Names(items) ==> n in PlaceAll(items, names, w).placed
    decreases Names(items) - w.placed, |names|
  {
    hide WalkInv, Reaches, Names;
    if names != [] {
      PlaceKeeps(items, names[0], w, open);
      PlaceAllKeeps(items, names[1..], Place(items, names[0], w), open);
      assert forall n :: n in names ==> n == names[0] || n in names[1..];
    }
  }

  // ---------------------------------------------------------------- main results

  lemma {:induction false} InOrderKeeps(items: Schemas)
    ensures var w := PlaceAll(items, NameList(items), Walk({}, []));
            WalkInv(items, w, {}) && Names(items) <= w.placed
  {
    hide Lookup, PlaceAll, Reaches;
    PlaceAllKeeps(items, NameList(items), Walk({}, []), {});
    forall n | n in Names(items) ensures n in NameList(items) {
      var f :| f in items && f.name == n;
      var i :| 0 <= i < |items| && items[i] == f;
      assert NameList(items)[i] == n;
    }
  }

  lemma {:induction false} LookupItem(items: Schemas, i: nat)
    requires Named(items) && i < |items|
    ensures Lookup(items, items[i].name) == Some(items[i])
  {
    if i < |items| - 1 {
      LookupItem(items[..|items| - 1], i);
    }
  }

  /** Reordering loses nothing, invents nothing and repeats nothing. */
  lemma {:induction false} InOrderPermutes(items: Schemas)
    requires Named(items)
    ensures multiset(InOrder(items)) == multiset(items)
    ensures Named(InOrder(items))
  {
    hide Lookup, PlaceAll, ReferencesFirst;
    InOrderKeeps(items);
    var ordered := InOrder(items);
    forall f ensures f in ordered <==> f in items {
      if f in items {
        var i :| 0 <= i < |items| && items[i] == f;
        LookupItem(items, i);
        var g :| g in ordered && g.name == f.name;
      }
    }
    SameElementsPermute(ordered, items);
  }

  /** A schema stands after every known schema it references, unless that one leads back to it. */
  lemma {:induction false} ReferencesComeFirst(items: Schemas, i: nat, v: string)
    requires i < |InOrder(items)|
    requires Uses(items, InOrder(items)[i].name, v)
    requires !Reaches(items, v, InOrder(items)[i].name)
    ensures v in Names(InOrder(items)[..i])
  {
    hide Lookup, PlaceAll, Reaches, Uses;
    InOrderKeeps(items);
  }

  /** No schema leads back to itself through at least one reference. */
  ghost predicate Acyclic(items: Schemas) {
    forall u, v :: Uses(items, u, v) ==> !Reaches(items, v, u)
  }

  /** Without cycles, every known reference of every schema is declared before it. */
  lemma {:induction false} AcyclicDeclaresBeforeUse(items: Schemas)
    requires Acyclic(items)
    ensures var ordered := InOrder(items);
            forall i, v :: 0 <= i < |ordered| && Uses(items, ordered[i].name, v) ==> v in Names(ordered[..i])
  {
    hide Lookup, PlaceAll, Reaches, Uses, InOrder;
    var ordered := InOrder(items);
    forall i, v | 0 <= i < |ordered| && Uses(items, ordered[i].name, v) ensures v in Names(ordered[..i]) {
      ReferencesComeFirst(items, i, v);
    }
  }

  /** Every known reference stands at or before its user. */
  ghost predicate AlreadyOrdered(items: Schemas) {
    forall i, v :: 0 <= i < |items| && Uses(items, items[i].name, v) ==> v in Names(items[..i + 1])
  }

  lemma {:induction false} PlaceGrows(items: Schemas, name: string, w: Walk)
    ensures w.ordered <= Place(items, name, w).ordered
    ensures name !in w.placed && Lookup(items, name).Some? ==>
            |Place(items, name, w).ordered| > |w.ordered|
    decreases Names(items) - w.placed, 0
  {
    hide Lookup, ReferencesOf, Names;
    if name !in w.placed && Lookup(items, name).Some? {
      PlaceAllGrows(items, ReferencesOf(Lookup(items, name).value), w.(placed := w.placed + {name}));
    }
  }

  /** Placing a list appends, and appends nothing only when nothing was left to place. */
  lemma {:induction false} PlaceAllGrows(items: Schemas, names: seq<string>, w: Walk)
    ensures w.ordered <= PlaceAll(items, names, w).ordered
    ensures |PlaceAll(items, names, w).ordered| == |w.ordered| <==>
            forall n :: n in names && Lookup(items, n).Some? ==> n in w.placed
    ensures |PlaceAll(items, names, w).ordered| == |w.ordered| ==> PlaceAll(items, names, w) == w
    decreases Names(items) - w.placed, |names|
  {
    hide Lookup, ReferencesOf, Names;
    if names != [] {
      PlaceGrows(items, names[0], w);
      PlaceAllGrows(items, names[1..], Place(items, names[0], w));
      assert forall n :: n in names <==> n == names[0] || n in names[1..];
    }
  }

  /** The state after the first i schemas, if they were all in order. */
  function Done(items: Schemas, i: nat): Walk
    requires i <= |items|
  {
    Walk(Names(items[..i]), items[..i])
  }

  lemma {:induction false} PlaceInOrder(items: Schemas, i: nat)
    requires Named(items) && i < |items|
    requires forall v :: Uses(items, items[i].name, v) ==> v in Names(items[..i + 1])
    ensures Place(items, items[i].name, Done(items, i)) == Done(items, i + 1)
  {
    hide Lookup, ReferencesOf, PlaceAll;
    LookupItem(items, i);
    NamesSnoc(items, i);
    var name, references := items[i].name, ReferencesOf(items[i]);
    var marked := Done(items, i).(placed := Names(items[..i]) + {name});
    forall n | n in references && Lookup(items, n).Some? ensures n in marked.placed {
      assert Uses(items, name, n);
    }
    PlaceAllGrows(items, references, marked);
    assert items[..i] + [items[i]] == items[..i + 1];
  }

  lemma {:induction false} NamesSnoc(items: Schemas, i: nat)
    requires Named(items) && i < |items|
    ensures Names(items[..i + 1]) == Names(items[..i]) + {items[i].name}
    ensures items[i].name !in Names(items[..i])
  {
    assert items[..i + 1] == items[..i] + [items[i]];
    assert forall f :: f in items[..i + 1] <==> f in items[..i] || f == items[i];
  }

  lemma {:induction false} InOrderFrom(items: Schemas, i: nat)
    requires Named(items) && i <= |items|
    requires forall j, v :: i <= j < |items| && Uses(items, items[j].name, v) ==> v in Names(items[..j + 1])
    ensures PlaceAll(items, NameList(items)[i..], Done(items, i)) == Done(items, |items|)
    decreases |items| - i
  {
    hide Place, Uses, Names;
    if i < |items| {
      PlaceInOrder(items, i);
      InOrderFrom(items, i + 1);
      assert NameList(items)[i..][1..] == NameList(items)[i + 1..];
    }
  }

  /** If the walk ends with the list it was given, each of its steps appended just that schema. */
  lemma {:induction false} UnchangedFrom(items: Schemas, i: nat)
    requires Named(items) && i <= |items|
    requires PlaceAll(items, NameList(items)[i..], Done(items, i)).ordered == items
    ensures forall j, v :: i <= j < |items| && Uses(items, items[j].name, v) ==> v in Names(items[..j + 1])
    decreases |items| - i
  {
    hide Lookup, ReferencesOf, Names, Place, Named;
    if i < |items| {
      var name := items[i].name;
      var next := Place(items, name, Done(items, i));
      assert NameList(items)[i..][1..] == NameList(items)[i + 1..];
      PlaceAllGrows(items, NameList(items)[i + 1..], next);
      StepIsOne(items, i, next);
      UnchangedFrom(items, i + 1);
    }
  }

  lemma {:induction false} StepIsOne(items: Schemas, i: nat, next: Walk)
    requires Named(items) && i < |items|
    requires next == Place(items, items[i].name, Done(items, i)) && next.ordered <= items
    ensures next == Done(items, i + 1)
    ensures forall v :: Uses(items, items[i].name, v) ==> v in Names(items[..i + 1])
  {
    hide ReferencesOf, PlaceAll, Lookup;
    LookupItem(items, i);
    NamesSnoc(items, i);
    var marked := Done(items, i).(placed := Names(items[..i]) + {items[i].name});
    var after := PlaceAll(items, ReferencesOf(items[i]), marked);
    PlaceAllGrows(items, ReferencesOf(items[i]), marked);
    assert next.ordered == after.ordered + [items[i]];
    assert items[|after.ordered|] == items[i];
    assert items[..i] + [items[i]] == items[..i + 1];
  }

  /** A section is left as written exactly when every schema already follows what it references. */
  lemma {:induction false} UnchangedExactlyWhenOrdered(items: Schemas)
    requires Named(items)
    ensures InOrder(items) == items <==> AlreadyOrdered(items)
  {
    hide PlaceAll, Uses;
    assert items[..0] == [] && items[..|items|] == items;
    assert Done(items, 0) == Walk({}, []);
    assert NameList(items)[0..] == NameList(items);
    if AlreadyOrdered(items) {
      InOrderFrom(items, 0);
    }
    if InOrder(items) == items {
      UnchangedFrom(items, 0);
    }
  }
}
