/** The last bundling step: drop every component nothing reaches and every tag no operation uses. */
module PruneUnused {
  import opened Basics
  import opened JsonTree
  import opened Text
  import opened JsonPaths

  const COMPONENT_PREFIX := "#/components/"

  // ---------------------------------------------------------------- what a walk finds

  /** Component pointers, security scheme names and operation tags met on a walk. */
  datatype Found = Found(refs: set<string>, schemes: set<string>, tags: set<string>) {
    function Plus(other: Found): Found {
      Found(refs + other.refs, schemes + other.schemes, tags + other.tags)
    }

    predicate Within(other: Found) {
      refs <= other.refs && schemes <= other.schemes && tags <= other.tags
    }
  }

  const NOTHING := Found({}, {}, {})

  predicate IsComponentRef(f: Field) {
    f.name == "$ref" && f.value.Str? && StartsWith(f.value.s, COMPONENT_PREFIX)
  }

  function FieldNames(fields: seq<Field>): set<string> {
    set f | f in fields :: f.name
  }

  /** Scheme names in the first n requirements of a `security` array. */
  function RequiredSchemes(items: seq<Json>, n: nat): set<string>
    requires n <= |items|
  {
    if n == 0 then {}
    else RequiredSchemes(items, n - 1) + if items[n - 1].Obj? then FieldNames(items[n - 1].fields) else {}
  }

  /** Everything found in `node`, which sits under `key`. */
  function FoundIn(node: Json, key: string): Found
    decreases node, 1
  {
    match node
    case Arr(items) =>
      Found({}, if key == "security" then RequiredSchemes(items, |items|) else {}, {})
        .Plus(FoundInItems(items, key, |items|))
    case Obj(fields) => FoundInFields(fields, |fields|)
    case _ => NOTHING
  }

  function FoundInItems(items: seq<Json>, key: string, n: nat): Found
    requires n <= |items|
    decreases items, n
  {
    if n == 0 then NOTHING
    else FoundInItems(items, key, n - 1).Plus(TagOf(items[n - 1], key).Plus(FoundIn(items[n - 1], "")))
  }

  /** A string of a `tags` array is a tag. */
  function TagOf(item: Json, key: string): Found {
    Found({}, {}, if key == "tags" && item.Str? then {item.s} else {})
  }

  lemma {:induction false} PlusAssociates(a: Found, b: Found, c: Found)
    ensures a.Plus(b).Plus(c) == a.Plus(b.Plus(c))
  {
  }

  function FoundInFields(fields: seq<Field>, n: nat): Found
    requires n <= |fields|
    decreases fields, n
  {
    if n == 0 then NOTHING
    else
      var f := fields[n - 1];
      FoundInFields(fields, n - 1)
        .Plus(if IsComponentRef(f) then Found({f.value.s}, {}, {}) else FoundIn(f.value, f.name))
  }

  // ---------------------------------------------------------------- what that is, place by place

  /** An object that refers to a component by this pointer. */
  ghost predicate RefersTo(node: Json, pointer: string) {
    node.Obj? && Field("$ref", Str(pointer)) in node.fields && "#/components/" <= pointer
  }

  /** A list of requirements, one of which has this scheme for a key. */
  ghost predicate Requires(node: Json, scheme: string) {
    node.Arr? && exists r, f :: r in node.items && r.Obj? && f in r.fields && f.name == scheme
  }

  ghost predicate Lists(node: Json, tag: string) {
    node.Arr? && Str(tag) in node.items
  }

  ghost predicate RefStands(root: Json, key: string, pointer: string) {
    exists k, node :: StandsUnder(root, key, k, node) && RefersTo(node, pointer)
  }

  ghost predicate SchemeStands(root: Json, key: string, scheme: string) {
    exists node :: StandsUnder(root, key, "security", node) && Requires(node, scheme)
  }

  ghost predicate TagStands(root: Json, key: string, tag: string) {
    exists node :: StandsUnder(root, key, "tags", node) && Lists(node, tag)
  }

  lemma {:induction false} RefInParts(root: Json, key: string, x: string)
    ensures RefStands(root, key, x) <==>
            || RefersTo(root, x)
            || (root.Arr? && exists i :: 0 <= i < |root.items| && RefStands(root.items[i], "", x))
            || (root.Obj? && exists i :: 0 <= i < |root.fields| && RefStands(root.fields[i].value, root.fields[i].name, x))
  {
    hide StandsUnder, RefersTo;
    RootStands(root, key);
    if k, node :| StandsUnder(root, key, k, node) && RefersTo(node, x) {
      StandsSomewhere(root, key, k, node);
      if i :| root.Arr? && 0 <= i < |root.items| && StandsUnder(root.items[i], "", k, node) {
        assert RefStands(root.items[i], "", x);
      }
      if i :| root.Obj? && 0 <= i < |root.fields| && StandsUnder(root.fields[i].value, root.fields[i].name, k, node) {
        assert RefStands(root.fields[i].value, root.fields[i].name, x);
      }
    }
    if i :| root.Arr? && 0 <= i < |root.items| && RefStands(root.items[i], "", x) {
      var k, node :| StandsUnder(root.items[i], "", k, node) && RefersTo(node, x);
      StandsInItem(root.items, i, key, k, node);
    }
    if i :| root.Obj? && 0 <= i < |root.fields| && RefStands(root.fields[i].value, root.fields[i].name, x) {
      var k, node :| StandsUnder(root.fields[i].value, root.fields[i].name, k, node) && RefersTo(node, x);
      StandsInField(root.fields, i, key, k, node);
    }
  }

  /** What stands in a document stands at its root, or in one of its items or fields. */
  lemma {:induction false} StandsInParts(root: Json, key: string, x: string)
    ensures RefStands(root, key, x) <==>
            || RefersTo(root, x)
            || (root.Arr? && exists i :: 0 <= i < |root.items| && RefStands(root.items[i], "", x))
            || (root.Obj? && exists i :: 0 <= i < |root.fields| && RefStands(root.fields[i].value, root.fields[i].name, x))
    ensures SchemeStands(root, key, x) <==>
            || (key == "security" && Requires(root, x))
            || (root.Arr? && exists i :: 0 <= i < |root.items| && SchemeStands(root.items[i], "", x))
            || (root.Obj? && exists i :: 0 <= i < |root.fields| && SchemeStands(root.fields[i].value, root.fields[i].name, x))
    ensures TagStands(root, key, x) <==>
            || (key == "tags" && Lists(root, x))
            || (root.Arr? && exists i :: 0 <= i < |root.items| && TagStands(root.items[i], "", x))
            || (root.Obj? && exists i :: 0 <= i < |root.fields| && TagStands(root.fields[i].value, root.fields[i].name, x))
  {
    hide StandsUnder, RefersTo, Requires, Lists;
    RefInParts(root, key, x);
    hide RefStands;
    RootStands(root, key);
    forall k, node | StandsUnder(root, key, k, node)
      ensures || (node == root && k == key)
              || (root.Arr? && exists i :: 0 <= i < |root.items| && StandsUnder(root.items[i], "", k, node))
              || (root.Obj? && exists i :: 0 <= i < |root.fields| && StandsUnder(root.fields[i].value, root.fields[i].name, k, node))
    {
      StandsSomewhere(root, key, k, node);
    }
    forall i, k, node | root.Arr? && 0 <= i < |root.items| && StandsUnder(root.items[i], "", k, node)
      ensures StandsUnder(root, key, k, node)
    {
      StandsInItem(root.items, i, key, k, node);
    }
    forall i, k, node | root.Obj? && 0 <= i < |root.fields| && StandsUnder(root.fields[i].value, root.fields[i].name, k, node)
      ensures StandsUnder(root, key, k, node)
    {
      StandsInField(root.fields, i, key, k, node);
    }
  }

  /**
   * The walk finds a pointer exactly where an object refers to a component by it, a scheme exactly where
   * a requirement of a list under `security` has it for a key, and a tag exactly where it is a string of
   * a list under `tags`; wherever in the document that is.
   */
  lemma {:induction false} FindsWhatStands(root: Json, key: string, x: string)
    ensures x in FoundIn(root, key).refs <==> RefStands(root, key, x)
    ensures x in FoundIn(root, key).schemes <==> SchemeStands(root, key, x)
    ensures x in FoundIn(root, key).tags <==> TagStands(root, key, x)
    decreases root
  {
    hide RefStands, SchemeStands, TagStands;
    StandsInParts(root, key, x);
    match root
    case Arr(items) =>
      forall i | 0 <= i < |items|
        ensures x in FoundIn(items[i], "").refs <==> RefStands(items[i], "", x)
        ensures x in FoundIn(items[i], "").schemes <==> SchemeStands(items[i], "", x)
        ensures x in FoundIn(items[i], "").tags <==> TagStands(items[i], "", x)
      {
        FindsWhatStands(items[i], "", x);
      }
      ItemsFound(items, key, |items|, x);
      RequirementsFound(items, |items|, x);
    case Obj(fields) =>
      forall i | 0 <= i < |fields|
        ensures x in FoundIn(fields[i].value, fields[i].name).refs <==> RefStands(fields[i].value, fields[i].name, x)
        ensures x in FoundIn(fields[i].value, fields[i].name).schemes <==> SchemeStands(fields[i].value, fields[i].name, x)
        ensures x in FoundIn(fields[i].value, fields[i].name).tags <==> TagStands(fields[i].value, fields[i].name, x)
      {
        FindsWhatStands(fields[i].value, fields[i].name, x);
      }
      FieldsFound(fields, |fields|, x);
    case _ =>
  }

  lemma {:induction false} RequirementsFound(items: seq<Json>, n: nat, x: string)
    requires n <= |items|
    ensures x in RequiredSchemes(items, n) <==>
            exists i, f :: 0 <= i < n && items[i].Obj? && f in items[i].fields && f.name == x
  {
    if n > 0 {
      RequirementsFound(items, n - 1, x);
    }
  }

  lemma {:induction false} ItemsFound(items: seq<Json>, key: string, n: nat, x: string)
    requires n <= |items|
    ensures var found := FoundInItems(items, key, n);
            && (x in found.refs <==> exists i :: 0 <= i < n && x in FoundIn(items[i], "").refs)
            && (x in found.schemes <==> exists i :: 0 <= i < n && x in FoundIn(items[i], "").schemes)
            && (x in found.tags <==>
                  || (key == "tags" && exists i :: 0 <= i < n && items[i] == Str(x))
                  || exists i :: 0 <= i < n && x in FoundIn(items[i], "").tags)
  {
    hide FoundIn, FoundInItems;
    OneMoreItem(items, key, n, x);
    if n > 0 {
      ItemsFound(items, key, n - 1, x);
    }
  }

  lemma {:induction false} OneMoreItem(items: seq<Json>, key: string, n: nat, x: string)
    requires n <= |items|
    ensures n == 0 ==> FoundInItems(items, key, n) == NOTHING
    ensures n > 0 ==>
              var found, before, last := FoundInItems(items, key, n), FoundInItems(items, key, n - 1), FoundIn(items[n - 1], "");
              && (x in found.refs <==> x in before.refs || x in last.refs)
              && (x in found.schemes <==> x in before.schemes || x in last.schemes)
              && (x in found.tags <==> x in before.tags || (key == "tags" && items[n - 1] == Str(x)) || x in last.tags)
  {
    hide FoundIn;
  }

  lemma {:induction false} FieldsFound(fields: seq<Field>, n: nat, x: string)
    requires n <= |fields|
    ensures var found := FoundInFields(fields, n);
            && (x in found.refs <==>
                  || (exists i :: 0 <= i < n && fields[i] == Field("$ref", Str(x)) && "#/components/" <= x)
                  || exists i :: 0 <= i < n && x in FoundIn(fields[i].value, fields[i].name).refs)
            && (x in found.schemes <==> exists i :: 0 <= i < n && x in FoundIn(fields[i].value, fields[i].name).schemes)
            && (x in found.tags <==> exists i :: 0 <= i < n && x in FoundIn(fields[i].value, fields[i].name).tags)
  {
    hide FoundIn, FoundInFields;
    OneMoreField(fields, n, x);
    if n > 0 {
      FieldsFound(fields, n - 1, x);
    }
  }

  lemma {:induction false} OneMoreField(fields: seq<Field>, n: nat, x: string)
    requires n <= |fields|
    ensures n == 0 ==> FoundInFields(fields, n) == NOTHING
    ensures n > 0 ==>
              var found, before := FoundInFields(fields, n), FoundInFields(fields, n - 1);
              var f := fields[n - 1];
              var last := FoundIn(f.value, f.name);
              && (x in found.refs <==>
                    x in before.refs || (f == Field("$ref", Str(x)) && "#/components/" <= x) || x in last.refs)
              && (x in found.schemes <==> x in before.schemes || x in last.schemes)
              && (x in found.tags <==> x in before.tags || x in last.tags)
  {
    if n > 0 {
      TextHasNothing(fields[n - 1].value, fields[n - 1].name);
    }
    hide FoundIn;
  }

  lemma {:induction false} TextHasNothing(node: Json, key: string)
    ensures node.Str? ==> FoundIn(node, key) == NOTHING
  {
  }

  /** The sets a walk fills in place. */
  class Findings {
    var refs: set<string>
    var schemes: set<string>
    var tags: set<string>

    constructor ()
      ensures View() == NOTHING
    {
      refs, schemes, tags := {}, {}, {};
    }

    ghost function View(): Found
      reads this
    {
      Found(refs, schemes, tags)
    }

    method CollectSchemes(requirements: seq<Json>)
      modifies this
      ensures View() == old(View()).Plus(Found({}, RequiredSchemes(requirements, |requirements|), {}))
    {
      for i := 0 to |requirements|
        invariant View() == old(View()).Plus(Found({}, RequiredSchemes(requirements, i), {}))
      {
        if requirements[i].Obj? {
          schemes := schemes + FieldNames(requirements[i].fields);
        }
      }
    }

    method Collect(node: Json, key: string)
      modifies this
      ensures View() == old(View()).Plus(FoundIn(node, key))
      decreases node, 1
    {
      match node
      case Arr(items) =>
        if key == "security" {
          CollectSchemes(items);
        }
        CollectItems(items, key);
      case Obj(fields) =>
        CollectFields(fields);
      case _ =>
    }

    method CollectItems(items: seq<Json>, key: string)
      modifies this
      ensures View() == old(View()).Plus(FoundInItems(items, key, |items|))
      decreases items, 0
    {
      for i := 0 to |items|
        invariant View() == old(View()).Plus(FoundInItems(items, key, i))
      {
        if key == "tags" && items[i].Str? {
          tags := tags + {items[i].s};
        }
        assert View() == old(View()).Plus(FoundInItems(items, key, i)).Plus(TagOf(items[i], key));
        Collect(items[i], "");
        ghost var a, b, c, d := old(View()), FoundInItems(items, key, i), TagOf(items[i], key), FoundIn(items[i], "");
        PlusAssociates(a.Plus(b), c, d);
        PlusAssociates(a, b, c.Plus(d));
      }
    }

    method CollectFields(fields: seq<Field>)
      modifies this
      ensures View() == old(View()).Plus(FoundInFields(fields, |fields|))
      decreases fields, 0
    {
      for i := 0 to |fields|
        invariant View() == old(View()).Plus(FoundInFields(fields, i))
      {
        if IsComponentRef(fields[i]) {
          refs := refs + {fields[i].value.s};
        } else {
          Collect(fields[i].value, fields[i].name);
        }
      }
    }
  }

  // ---------------------------------------------------------------- the document and what it reaches

  /** A document: everything but `components` and `tags`, then those two. */
  datatype View = View(body: seq<Field>, tags: Option<seq<Json>>,
                       components: map<string, map<string, Json>>)

  function PointerOf(kind: string, name: string): string {
    COMPONENT_PREFIX + kind + "/" + name
  }

  function AfterPrefix(p: string): string {
    if |COMPONENT_PREFIX| <= |p| then p[|COMPONENT_PREFIX|..] else ""
  }

  function KindOf(p: string): string {
    Split(AfterPrefix(p), '/')[0]
  }

  /** The second segment; a pointer with none looks up the property `undefined`, as JavaScript does. */
  function NameOf(p: string): string {
    var parts := Split(AfterPrefix(p), '/');
    if |parts| > 1 then parts[1] else "undefined"
  }

  function ComponentAt(v: View, p: string): Option<Json> {
    if KindOf(p) in v.components && NameOf(p) in v.components[KindOf(p)]
    then Some(v.components[KindOf(p)][NameOf(p)])
    else None
  }

  function FoundOutside(v: View): Found {
    FoundInFields(v.body, |v.body|)
      .Plus(if v.tags.Some? then FoundIn(Arr(v.tags.value), "tags") else NOTHING)
  }

  function FoundAt(v: View, p: string): Found {
    match ComponentAt(v, p)
    case Some(component) => FoundIn(component, "")
    case None => NOTHING
  }

  /** References leading from outside `components` to the last pointer of the trail. */
  ghost predicate IsTrail(v: View, trail: seq<string>) {
    && trail != []
    && trail[0] in FoundOutside(v).refs
    && forall i, j :: 0 <= i && j == i + 1 < |trail| ==> trail[j] in FoundAt(v, trail[i]).refs
  }

  ghost predicate Reachable(v: View, p: string) {
    exists trail :: IsTrail(v, trail) && trail[|trail| - 1] == p
  }

  ghost predicate SchemeUsed(v: View, scheme: string) {
    scheme in FoundOutside(v).schemes || exists p :: Reachable(v, p) && scheme in FoundAt(v, p).schemes
  }

  ghost predicate TagUsed(v: View, tag: string) {
    tag in FoundOutside(v).tags || exists p :: Reachable(v, p) && tag in FoundAt(v, p).tags
  }

  lemma {:induction false} ReachableFromOutside(v: View, p: string)
    requires p in FoundOutside(v).refs
    ensures Reachable(v, p)
  {
    assert IsTrail(v, [p]);
  }

  lemma {:induction false} ReachableOnward(v: View, p: string, q: string)
    requires Reachable(v, p) && q in FoundAt(v, p).refs
    ensures Reachable(v, q)
  {
    var trail :| IsTrail(v, trail) && trail[|trail| - 1] == p;
    assert IsTrail(v, trail + [q]);
  }

  /** Reachability is the least set holding the outside references and closed under following them. */
  lemma {:induction false} ReachableIsLeast(v: View, closed: set<string>, trail: seq<string>)
    requires FoundOutside(v).refs <= closed
    requires forall p :: p in closed ==> FoundAt(v, p).refs <= closed
    requires IsTrail(v, trail)
    ensures trail[|trail| - 1] in closed
  {
    if |trail| > 1 {
      var before := trail[..|trail| - 1];
      assert IsTrail(v, before);
      ReachableIsLeast(v, closed, before);
      assert trail[|trail| - 1] in FoundAt(v, trail[|trail| - 2]).refs;
    }
  }

  /** Every pointer the document mentions at all. */
  function Mentioned(v: View): set<string> {
    FoundOutside(v).refs +
    set kind, name, p | kind in v.components && name in v.components[kind]
                        && p in FoundIn(v.components[kind][name], "").refs :: p
  }

  lemma {:induction false} FoundIsMentioned(v: View, p: string)
    ensures FoundAt(v, p).refs <= Mentioned(v)
  {
    hide FoundIn, FoundOutside, KindOf, NameOf;
  }

  method ListOf(s: set<string>) returns (r: seq<string>)
    ensures forall x :: x in r <==> x in s
    ensures Distinct(r)
  {
    var left := s;
    r := [];
    while left != {}
      invariant left <= s
      invariant forall x :: x in r <==> x in s - left
      invariant Distinct(r)
      decreases |left|
    {
      var x :| x in left;
      left := left - {x};
      r := r + [x];
    }
  }

  /** What `found` holds after a walk that is still to visit the pointers in `queue`. */
  ghost predicate WalkInv(v: View, found: Found, queue: seq<string>) {
    && found.refs <= Mentioned(v)
    && FoundOutside(v).Within(found)
    && (forall p :: p in queue ==> p in found.refs)
    && (forall p :: p in found.refs ==> Reachable(v, p))
    && (forall p :: p in found.refs && p !in queue ==> FoundAt(v, p).Within(found))
    && (forall s :: s in found.schemes ==> SchemeUsed(v, s))
    && (forall t :: t in found.tags ==> TagUsed(v, t))
  }

  /** Following one pointer keeps the walk's promise. */
  lemma {:induction false} VisitKeepsWalk(v: View, found: Found, queue: seq<string>, p: string, added: seq<string>)
    requires WalkInv(v, found, queue + [p])
    requires forall q :: q in added <==> q in FoundAt(v, p).refs && q !in found.refs
    ensures WalkInv(v, found.Plus(FoundAt(v, p)), queue + added)
  {
    hide FoundOutside, FoundAt, Mentioned, Reachable;
    var after := found.Plus(FoundAt(v, p));
    assert p in queue + [p];
    FoundIsMentioned(v, p);
    forall q | q in after.refs ensures Reachable(v, q) {
      if q !in found.refs {
        ReachableOnward(v, p, q);
      }
    }
    forall q | q in after.refs && q !in queue + added ensures FoundAt(v, q).Within(after) {
      assert q in found.refs;
      if q != p {
        assert q !in queue + [p];
      }
    }
  }

  /** A finished walk found exactly what is reachable, and all its schemes and tags. */
  lemma {:induction false} FinishedWalk(v: View, found: Found)
    requires WalkInv(v, found, [])
    ensures forall p :: p in found.refs <==> Reachable(v, p)
    ensures forall s :: s in found.schemes <==> SchemeUsed(v, s)
    ensures forall t :: t in found.tags <==> TagUsed(v, t)
  {
    hide FoundOutside, FoundAt, Mentioned;
    forall p | Reachable(v, p) ensures p in found.refs {
      var trail :| IsTrail(v, trail) && trail[|trail| - 1] == p;
      ReachableIsLeast(v, found.refs, trail);
    }
  }

  // ---------------------------------------------------------------- what pruning leaves

  /** A component stays when its own pointer is reachable; a security scheme when one names it. */
  ghost predicate Kept(v: View, kind: string, name: string) {
    if kind == "securitySchemes" then SchemeUsed(v, name) else Reachable(v, PointerOf(kind, name))
  }

  predicate IsUsed(kind: string, name: string, refs: set<string>, schemes: set<string>) {
    if kind == "securitySchemes" then name in schemes else PointerOf(kind, name) in refs
  }

  function Used(kind: string, entries: map<string, Json>, refs: set<string>, schemes: set<string>): map<string, Json> {
    map name | name in entries && IsUsed(kind, name, refs, schemes) :: entries[name]
  }

  /** The components left while some kinds still wait to be pruned. */
  ghost function PartlyUsed(components: map<string, map<string, Json>>, waiting: seq<string>, refs: set<string>,
                            schemes: set<string>): map<string, map<string, Json>>
  {
    map kind | kind in components ::
      if kind in waiting then components[kind] else Used(kind, components[kind], refs, schemes)
  }

  lemma {:induction false} AllKindsWait(components: map<string, map<string, Json>>, kinds: seq<string>, refs: set<string>,
                                        schemes: set<string>)
    requires forall kind :: kind in components ==> kind in kinds
    ensures PartlyUsed(components, kinds, refs, schemes) == components
  {
    hide Used;
  }

  lemma {:induction false} NoKindWaits(components: map<string, map<string, Json>>, refs: set<string>, schemes: set<string>)
    ensures PartlyUsed(components, [], refs, schemes) ==
            map kind | kind in components :: Used(kind, components[kind], refs, schemes)
  {
    hide Used;
  }

  lemma {:induction false} OneKindLess(components: map<string, map<string, Json>>, kind: string, waiting: seq<string>,
                                       refs: set<string>, schemes: set<string>)
    requires kind in components && kind !in waiting
    ensures var held := PartlyUsed(components, [kind] + waiting, refs, schemes);
            && kind in held
            && held[kind := Used(kind, held[kind], refs, schemes)] == PartlyUsed(components, waiting, refs, schemes)
  {
    hide Used;
  }

  /** The entries left while some names still wait to be decided. */
  ghost function Remaining(kind: string, entries: map<string, Json>, waiting: seq<string>, refs: set<string>,
                           schemes: set<string>): map<string, Json>
  {
    map name | name in entries && (name in waiting || IsUsed(kind, name, refs, schemes)) :: entries[name]
  }

  lemma {:induction false} DecideOne(kind: string, entries: map<string, Json>, name: string, waiting: seq<string>,
                                     refs: set<string>, schemes: set<string>)
    requires name !in waiting
    ensures Remaining(kind, entries, waiting, refs, schemes) ==
            if IsUsed(kind, name, refs, schemes) then Remaining(kind, entries, [name] + waiting, refs, schemes)
            else Remaining(kind, entries, [name] + waiting, refs, schemes) - {name}
  {
    hide IsUsed;
  }

  lemma {:induction false} AllWait(kind: string, entries: map<string, Json>, names: seq<string>,
                                   refs: set<string>, schemes: set<string>)
    requires forall name :: name in entries ==> name in names
    ensures Remaining(kind, entries, names, refs, schemes) == entries
  {
  }

  lemma {:induction false} NoneWaits(kind: string, entries: map<string, Json>, refs: set<string>, schemes: set<string>)
    ensures Remaining(kind, entries, [], refs, schemes) == Used(kind, entries, refs, schemes)
  {
    hide IsUsed;
  }

  /** The `name` property of a tag entry. */
  function TagName(entry: Json): Option<string> {
    if entry.Obj? then NameIn(entry.fields) else None
  }

  function NameIn(fields: seq<Field>): Option<string> {
    if fields == [] then None
    else if fields[0].name == "name" && fields[0].value.Str? then Some(fields[0].value.s)
    else NameIn(fields[1..])
  }

  ghost predicate TagKept(v: View, entry: Json) {
    TagName(entry).Some? && TagUsed(v, TagName(entry).value)
  }

  ghost function KeptTags(v: View): Option<seq<Json>> {
    if v.tags.Some? then Some(Filter(v.tags.value, entry => TagKept(v, entry))) else None
  }

  ghost function KeptOf(v: View, kind: string): map<string, Json>
    requires kind in v.components
  {
    map name | name in v.components[kind] && Kept(v, kind, name) :: v.components[kind][name]
  }

  ghost function Pruned(v: View): View {
    View(v.body, KeptTags(v), map kind | kind in v.components :: KeptOf(v, kind))
  }

  // ---------------------------------------------------------------- what pruning keeps, place by place

  /** What a place in a document can mention. */
  datatype Mark = Pointer(pointer: string) | Scheme(scheme: string) | Tag(tag: string)

  ghost predicate Stands(root: Json, key: string, mark: Mark) {
    match mark
    case Pointer(p) => RefStands(root, key, p)
    case Scheme(s) => SchemeStands(root, key, s)
    case Tag(t) => TagStands(root, key, t)
  }

  /** It is mentioned outside `components`, or in a component some reachable pointer finds. */
  ghost predicate IsMentioned(v: View, mark: Mark) {
    || Stands(Obj(v.body), "", mark)
    || (v.tags.Some? && Stands(Arr(v.tags.value), "tags", mark))
    || exists p, c :: Reachable(v, p) && ComponentAt(v, p) == Some(c) && Stands(c, "", mark)
  }

  ghost predicate IsFound(found: Found, mark: Mark) {
    match mark
    case Pointer(p) => p in found.refs
    case Scheme(s) => s in found.schemes
    case Tag(t) => t in found.tags
  }

  lemma {:induction false} FoundStands(root: Json, key: string, mark: Mark)
    ensures IsFound(FoundIn(root, key), mark) <==> Stands(root, key, mark)
  {
    hide FoundIn, RefStands, SchemeStands, TagStands;
    FindsWhatStands(root, key, match mark case Pointer(p) => p case Scheme(s) => s case Tag(t) => t);
  }

  lemma {:induction false} FoundOutsideStands(v: View, mark: Mark)
    ensures IsFound(FoundOutside(v), mark) <==>
            Stands(Obj(v.body), "", mark) || (v.tags.Some? && Stands(Arr(v.tags.value), "tags", mark))
  {
    assert FoundIn(Obj(v.body), "") == FoundInFields(v.body, |v.body|);
    hide FoundIn, FoundInFields, Stands;
    FoundStands(Obj(v.body), "", mark);
    if v.tags.Some? {
      FoundStands(Arr(v.tags.value), "tags", mark);
    }
  }

  lemma {:induction false} FoundAtStands(v: View, p: string, mark: Mark)
    ensures IsFound(FoundAt(v, p), mark) <==> exists c :: ComponentAt(v, p) == Some(c) && Stands(c, "", mark)
  {
    hide FoundIn, ComponentAt, Stands;
    if ComponentAt(v, p).Some? {
      FoundStands(ComponentAt(v, p).value, "", mark);
    }
  }

  /** A pointer is reachable, a scheme or a tag in use, exactly when it is mentioned. */
  lemma {:induction false} InUseExactly(v: View, mark: Mark)
    ensures IsMentioned(v, mark) <==>
            match mark
            case Pointer(p) => Reachable(v, p)
            case Scheme(s) => SchemeUsed(v, s)
            case Tag(t) => TagUsed(v, t)
  {
    hide FoundOutside, FoundAt, ComponentAt, Stands, Reachable;
    FoundOutsideStands(v, mark);
    forall p ensures IsFound(FoundAt(v, p), mark) <==> exists c :: ComponentAt(v, p) == Some(c) && Stands(c, "", mark) {
      FoundAtStands(v, p, mark);
    }
    if mark.Pointer? {
      ReachedFrom(v, mark.pointer);
    }
  }

  /** A pointer is reachable from outside, or from the component another reachable pointer finds. */
  lemma {:induction false} ReachedFrom(v: View, p: string)
    ensures Reachable(v, p) <==> p in FoundOutside(v).refs || exists q :: Reachable(v, q) && p in FoundAt(v, q).refs
  {
    hide FoundOutside, FoundAt;
    if p in FoundOutside(v).refs {
      ReachableFromOutside(v, p);
    }
    if q :| Reachable(v, q) && p in FoundAt(v, q).refs {
      ReachableOnward(v, q, p);
    }
    if Reachable(v, p) {
      var trail :| IsTrail(v, trail) && trail[|trail| - 1] == p;
      if |trail| > 1 {
        var before := trail[..|trail| - 1];
        assert IsTrail(v, before);
        assert p in FoundAt(v, trail[|trail| - 2]).refs;
      }
    }
  }

  /**
   * A component stays, as it was, exactly when its own pointer is mentioned; a security scheme exactly
   * when a requirement names it.
   */
  lemma {:induction false} ComponentStaysExactly(v: View, kind: string, name: string)
    requires kind in v.components && name in v.components[kind]
    ensures var mark := if kind == "securitySchemes" then Scheme(name) else Pointer("#/components/" + kind + "/" + name);
            && kind in Pruned(v).components
            && (name in Pruned(v).components[kind] <==> IsMentioned(v, mark))
            && (IsMentioned(v, mark) ==> Pruned(v).components[kind][name] == v.components[kind][name])
  {
    hide IsMentioned, Reachable, SchemeUsed, KeptTags;
    InUseExactly(v, Scheme(name));
    InUseExactly(v, Pointer("#/components/" + kind + "/" + name));
  }

  /** A document's tag stays exactly when it has a name and an operation files itself under that name. */
  lemma {:induction false} TagStaysExactly(v: View, entry: Json)
    requires v.tags.Some? && entry in v.tags.value
    requires entry.Obj? ==> forall i, j :: 0 <= i < j < |entry.fields| ==> entry.fields[i].name != entry.fields[j].name
    ensures Pruned(v).tags.Some?
    ensures entry in Pruned(v).tags.value <==>
            entry.Obj? && exists t :: Field("name", Str(t)) in entry.fields && IsMentioned(v, Tag(t))
  {
    hide IsMentioned, TagUsed, KeptOf;
    forall t ensures IsMentioned(v, Tag(t)) <==> TagUsed(v, t) {
      InUseExactly(v, Tag(t));
    }
    if entry.Obj? {
      NameOfTag(entry.fields);
    }
  }

  lemma {:induction false} NameOfTag(fields: seq<Field>)
    requires forall i, j :: 0 <= i < j < |fields| ==> fields[i].name != fields[j].name
    ensures forall t :: NameIn(fields) == Some(t) <==> Field("name", Str(t)) in fields
  {
    if fields != [] {
      NameOfTag(fields[1..]);
      assert fields == [fields[0]] + fields[1..];
      assert forall i :: 0 <= i < |fields[1..]| ==> fields[1..][i] == fields[i + 1];
    }
  }

  /** A pointer finds the component its first two segments name, whatever follows them. */
  lemma {:induction false} PointerFinds(v: View, kind: string, name: string, deeper: string)
    requires '/' !in kind && '/' !in name
    ensures var found := if kind in v.components && name in v.components[kind] then Some(v.components[kind][name]) else None;
            && ComponentAt(v, "#/components/" + kind + "/" + name) == found
            && ComponentAt(v, "#/components/" + kind + "/" + name + "/" + deeper) == found
    ensures ComponentAt(v, "#/components/" + kind) ==
            if kind in v.components && "undefined" in v.components[kind] then Some(v.components[kind]["undefined"]) else None
  {
    assert AfterPrefix("#/components/" + kind) == kind;
    SplitPlain(kind, '/');
    var p := "#/components/" + kind + "/" + name;
    assert AfterPrefix(p) == kind + ['/'] + name;
    assert AfterPrefix(p + "/" + deeper) == kind + ['/'] + (name + ['/'] + deeper);
    SplitCons(kind, name, '/');
    SplitCons(kind, name + ['/'] + deeper, '/');
    SplitPlain(name, '/');
    SplitCons(name, deeper, '/');
  }

  /** The bundled document, edited in place. */
  class OpenApiDocument {
    var body: seq<Field>
    var tags: Option<seq<Json>>
    var components: map<string, map<string, Json>>

    constructor (view: View)
      ensures Content() == view
    {
      body, tags, components := view.body, view.tags, view.components;
    }

    ghost function Content(): View
      reads this
    {
      View(body, tags, components)
    }

    function At(p: string): (r: Option<Json>)
      reads this
      ensures r == ComponentAt(Content(), p)
    {
      if KindOf(p) in components && NameOf(p) in components[KindOf(p)]
      then Some(components[KindOf(p)][NameOf(p)])
      else None
    }

    /** Walks everything outside `components`. */
    method CollectOutside(found: Findings)
      requires found.View() == NOTHING
      modifies found
      ensures found.View() == FoundOutside(Content())
    {
      hide FoundIn, FoundInFields, FoundInItems;
      found.CollectFields(body);
      if tags.Some? {
        found.Collect(Arr(tags.value), "tags");
      }
    }

    /** Walks the component one pointer names, if there is one. */
    method Visit(found: Findings, pointer: string)
      modifies found
      ensures found.View() == old(found.View()).Plus(FoundAt(Content(), pointer))
    {
      hide FoundIn, KindOf, NameOf;
      match At(pointer)
      case Some(component) => found.Collect(component, "");
      case None =>
    }

    /** The worklist: every pointer reachable from outside `components`. */
    method CollectReachable(found: Findings)
      requires found.View() == NOTHING
      modifies found
      ensures forall p :: p in found.refs <==> Reachable(Content(), p)
      ensures forall s :: s in found.schemes <==> SchemeUsed(Content(), s)
      ensures forall t :: t in found.tags <==> TagUsed(Content(), t)
    {
      hide FoundOutside, FoundAt, Mentioned, Reachable, SchemeUsed, TagUsed, WalkInv;
      CollectOutside(found);
      var queue := ListOf(found.refs);
      WalkBegins(Content(), queue);
      while queue != []
        invariant WalkInv(Content(), found.View(), queue)
        decreases Mentioned(Content()) - found.refs, |queue|
      {
        var pointer := queue[|queue| - 1];
        ghost var rest := queue[..|queue| - 1];
        assert rest + [pointer] == queue;
        queue := queue[..|queue| - 1];
        ghost var start := found.View();
        var before := found.refs;
        Visit(found, pointer);
        var added := ListOf(found.refs - before);
        VisitKeepsWalk(Content(), start, rest, pointer, added);
        VisitsAreNew(Content(), found.View(), queue, added);
        queue := queue + added;
      }
      FinishedWalk(Content(), found.View());
    }

    /** Deletes the unused entries of one kind. */
    method PruneKind(kind: string, refs: set<string>, schemes: set<string>)
      requires kind in components
      modifies this`components
      ensures components == old(components)[kind := Used(kind, old(components)[kind], refs, schemes)]
    {
      hide IsUsed, Used, Remaining;
      ghost var entries := components[kind];
      var names := ListOf(components[kind].Keys);
      assert names[0..] == names;
      AllWait(kind, entries, names, refs, schemes);
      for i := 0 to |names|
        invariant kind in components && components == old(components)[kind := components[kind]]
        invariant components[kind] == Remaining(kind, entries, names[i..], refs, schemes)
      {
        var name := names[i];
        assert names[i..] == [name] + names[i + 1..];
        DecideOne(kind, entries, name, names[i + 1..], refs, schemes);
        if !IsUsed(kind, name, refs, schemes) {
          components := components[kind := components[kind] - {name}];
        }
      }
      assert names[|names|..] == [];
      NoneWaits(kind, entries, refs, schemes);
    }

    /** Deletes the unused entries of every kind. */
    method PruneComponents(refs: set<string>, schemes: set<string>)
      modifies this`components
      ensures components ==
        map kind | kind in old(components) :: Used(kind, old(components)[kind], refs, schemes)
    {
      hide Used, PartlyUsed;
      ghost var before := components;
      var kinds := ListOf(components.Keys);
      assert kinds[0..] == kinds;
      AllKindsWait(before, kinds, refs, schemes);
      for i := 0 to |kinds|
        invariant components == PartlyUsed(before, kinds[i..], refs, schemes)
      {
        assert kinds[i..] == [kinds[i]] + kinds[i + 1..];
        OneKindLess(before, kinds[i], kinds[i + 1..], refs, schemes);
        PruneKind(kinds[i], refs, schemes);
      }
      assert kinds[|kinds|..] == [];
      NoKindWaits(before, refs, schemes);
    }

    /** Drops the unreferenced components and unused tags from the document. */
    method Prune()
      modifies this
      ensures Content() == Pruned(old(Content()))
    {
      hide Reachable, SchemeUsed, TagUsed, Filter;
      ghost var v := Content();
      var found := new Findings();
      CollectReachable(found);
      var used := found.tags;
      PruneComponents(found.refs, found.schemes);
      UsedIsKept(v, found.refs, found.schemes);
      if tags.Some? {
        var inUse := (entry: Json) => TagName(entry).Some? && TagName(entry).value in used;
        FilterSame(tags.value, inUse, entry => TagKept(v, entry));
        tags := Some(Filter(tags.value, inUse));
      }
    }
  }

  lemma {:induction false} UsedIsKept(v: View, refs: set<string>, schemes: set<string>)
    requires forall p :: p in refs <==> Reachable(v, p)
    requires forall s :: s in schemes <==> SchemeUsed(v, s)
    ensures forall kind :: kind in v.components ==>
              Used(kind, v.components[kind], refs, schemes) == KeptOf(v, kind)
  {
    hide Reachable, SchemeUsed;
  }

  lemma {:induction false} WalkBegins(v: View, queue: seq<string>)
    requires forall p :: p in queue <==> p in FoundOutside(v).refs
    ensures WalkInv(v, FoundOutside(v), queue)
  {
    hide FoundOutside, Reachable;
    forall p | p in FoundOutside(v).refs ensures Reachable(v, p) {
      ReachableFromOutside(v, p);
    }
  }

  /** Newly met pointers are mentioned somewhere, so the walk cannot go on for ever. */
  lemma {:induction false} VisitsAreNew(v: View, found: Found, queue: seq<string>, added: seq<string>)
    requires WalkInv(v, found, queue + added)
    ensures found.refs <= Mentioned(v)
    ensures added != [] ==> added[0] in found.refs
  {
    if added != [] {
      assert added[0] in queue + added;
    }
  }

  // ---------------------------------------------------------------- main results

  /** Every reachable pointer into `components` finds its component kept. */
  ghost predicate KeepsWhatItReaches(v: View) {
    forall p :: Reachable(v, p) && ComponentAt(v, p).Some? ==> Kept(v, KindOf(p), NameOf(p))
  }

  /** Every reachable pointer is written `#/components/<kind>/<name>`, and none points at a scheme. */
  ghost predicate PlainPointers(v: View) {
    forall p :: Reachable(v, p) && ComponentAt(v, p).Some? ==>
      p == PointerOf(KindOf(p), NameOf(p)) && KindOf(p) != "securitySchemes"
  }

  lemma {:induction false} PlainPointersAreKept(v: View)
    requires PlainPointers(v)
    ensures KeepsWhatItReaches(v)
  {
    hide Reachable, ComponentAt, KindOf, NameOf, PointerOf;
  }

  /** What a pointer finds after pruning: its component if that one was kept, and nothing else. */
  lemma {:induction false} PrunedComponent(v: View, p: string)
    ensures ComponentAt(Pruned(v), p) ==
            if ComponentAt(v, p).Some? && Kept(v, KindOf(p), NameOf(p)) then ComponentAt(v, p) else None
  {
    hide Kept, KindOf, NameOf, KeptTags;
  }

  /** Pruning breaks no reachable reference exactly when it keeps what each of them lands in. */
  lemma {:induction false} BreaksNoReference(v: View)
    ensures KeepsWhatItReaches(v) <==>
            forall p :: Reachable(v, p) ==> ComponentAt(Pruned(v), p) == ComponentAt(v, p)
  {
    hide Reachable, ComponentAt, KindOf, NameOf, Kept, Pruned;
    forall p ensures ComponentAt(Pruned(v), p) ==
      if ComponentAt(v, p).Some? && Kept(v, KindOf(p), NameOf(p)) then ComponentAt(v, p) else None
    {
      PrunedComponent(v, p);
    }
  }

  lemma {:induction false} DeepPointerParts(kind: string, name: string, deeper: string)
    requires '/' !in kind && '/' !in name
    ensures var p := PointerOf(kind, name) + "/" + deeper; KindOf(p) == kind && NameOf(p) == name
  {
    assert AfterPrefix(PointerOf(kind, name) + "/" + deeper) == kind + ['/'] + (name + ['/'] + deeper);
    SplitCons(kind, name + ['/'] + deeper, '/');
    SplitCons(name, deeper, '/');
  }

  /** A document whose one reference points inside a component. */
  function DeepDocument(kind: string, name: string, deeper: string, component: Json): View {
    View([Field("$ref", Str(PointerOf(kind, name) + "/" + deeper))], None, map[kind := map[name := component]])
  }

  /** Where keeping fails: a component referenced only through a deeper pointer is deleted under it. */
  lemma {:induction false} DeepPointerLosesItsComponent(kind: string, name: string, deeper: string)
    requires '/' !in kind && '/' !in name && kind != "securitySchemes"
    ensures var v := DeepDocument(kind, name, deeper, Null);
            var p := PointerOf(kind, name) + "/" + deeper;
            && Reachable(v, p)
            && ComponentAt(v, p) == Some(Null)
            && ComponentAt(Pruned(v), p) == None
  {
    hide FoundOutside, Pruned, KindOf, NameOf, FoundAt;
    var v := DeepDocument(kind, name, deeper, Null);
    var p := PointerOf(kind, name) + "/" + deeper;
    DeepPointerParts(kind, name, deeper);
    DeepDocumentFindsOne(kind, name, deeper);
    ReachableFromOutside(v, p);
    PrunedComponent(v, p);
    assert |PointerOf(kind, name)| < |p|;
    if Kept(v, kind, name) {
      var trail :| IsTrail(v, trail) && trail[|trail| - 1] == PointerOf(kind, name);
      ReachableIsLeast(v, {p}, trail);
    }
  }

  lemma {:induction false} DeepDocumentFindsOne(kind: string, name: string, deeper: string)
    ensures var v := DeepDocument(kind, name, deeper, Null);
            var p := PointerOf(kind, name) + "/" + deeper;
            FoundOutside(v).refs == {p} && forall q :: FoundAt(v, q) == NOTHING
  {
    hide KindOf, NameOf;
    var v := DeepDocument(kind, name, deeper, Null);
    var p := PointerOf(kind, name) + "/" + deeper;
    assert p == COMPONENT_PREFIX + (kind + "/" + name + "/" + deeper);
    assert IsComponentRef(v.body[0]);
    assert FoundInFields(v.body, 1) == FoundInFields(v.body, 0).Plus(Found({p}, {}, {}));
  }

  /** `node` with every component reference replaced by the component, `depth` replacements deep. */
  function Expand(v: View, node: Json, depth: nat): Json
    decreases depth, node
  {
    match node
    case Arr(items) => Arr(seq(|items|, i requires 0 <= i < |items| => Expand(v, items[i], depth)))
    case Obj(fields) =>
      Obj(seq(|fields|, i requires 0 <= i < |fields| => Field(fields[i].name, ExpandField(v, fields[i], depth))))
    case _ => node
  }

  function ExpandField(v: View, f: Field, depth: nat): Json
    decreases depth, f
  {
    if IsComponentRef(f) then
      if depth > 0 && ComponentAt(v, f.value.s).Some?
      then Expand(v, ComponentAt(v, f.value.s).value, depth - 1)
      else f.value
    else Expand(v, f.value, depth)
  }

  /** Expanding puts the component in the place of the pointer, as long as depth is left; other fields keep their names. */
  lemma {:induction false} ExpansionReplaces(v: View, kind: string, name: string, f: Field, depth: nat)
    requires '/' !in kind && '/' !in name && kind in v.components && name in v.components[kind]
    ensures var pointer := Field("$ref", Str("#/components/" + kind + "/" + name));
            && Expand(v, Obj([pointer]), 0) == Obj([pointer])
            && Expand(v, Obj([pointer]), depth + 1) == Obj([Field("$ref", Expand(v, v.components[kind][name], depth))])
    ensures f.name != "$ref" ==> Expand(v, Obj([f]), depth) == Obj([Field(f.name, Expand(v, f.value, depth))])
    ensures forall items :: Expand(v, Arr(items), depth).Arr? && |Expand(v, Arr(items), depth).items| == |items|
  {
    PointerFinds(v, kind, name, "");
    var p := "#/components/" + kind + "/" + name;
    assert IsComponentRef(Field("$ref", Str(p)));
    hide ComponentAt;
  }

  lemma {:induction false} ItemWithin(items: seq<Json>, key: string, n: nat, i: nat)
    requires i < n <= |items|
    ensures FoundIn(items[i], "").Within(FoundInItems(items, key, n))
  {
    hide FoundIn;
    if i < n - 1 {
      ItemWithin(items, key, n - 1, i);
    }
  }

  function FoundInField(f: Field): Found {
    if IsComponentRef(f) then Found({f.value.s}, {}, {}) else FoundIn(f.value, f.name)
  }

  lemma {:induction false} FieldWithin(fields: seq<Field>, n: nat, i: nat)
    requires i < n <= |fields|
    ensures FoundInField(fields[i]).Within(FoundInFields(fields, n))
  {
    hide FoundIn;
    if i < n - 1 {
      FieldWithin(fields, n - 1, i);
    }
  }

  /** What is reached from reachable content reads the same after pruning, however deep one looks. */
  lemma {:induction false} ExpansionUnchanged(v: View, node: Json, key: string, depth: nat)
    requires KeepsWhatItReaches(v)
    requires forall p :: p in FoundIn(node, key).refs ==> Reachable(v, p)
    ensures Expand(Pruned(v), node, depth) == Expand(v, node, depth)
    decreases depth, node
  {
    hide Reachable, KeepsWhatItReaches, Pruned, FoundInItems, FoundInFields, ComponentAt, IsComponentRef;
    match node
    case Arr(items) =>
      forall i | 0 <= i < |items| ensures Expand(Pruned(v), items[i], depth) == Expand(v, items[i], depth) {
        ItemWithin(items, key, |items|, i);
        ExpansionUnchanged(v, items[i], "", depth);
      }
    case Obj(fields) =>
      forall i | 0 <= i < |fields| ensures ExpandField(Pruned(v), fields[i], depth) == ExpandField(v, fields[i], depth) {
        FieldWithin(fields, |fields|, i);
        FieldExpansionUnchanged(v, fields[i], depth);
      }
    case _ =>
  }

  lemma {:induction false} FieldExpansionUnchanged(v: View, f: Field, depth: nat)
    requires KeepsWhatItReaches(v)
    requires forall p :: p in FoundInField(f).refs ==> Reachable(v, p)
    ensures ExpandField(Pruned(v), f, depth) == ExpandField(v, f, depth)
    decreases depth, f
  {
    hide Reachable, KeepsWhatItReaches, Pruned, FoundIn, ComponentAt;
    if IsComponentRef(f) {
      var p := f.value.s;
      BreaksNoReference(v);
      if depth > 0 && ComponentAt(v, p).Some? {
        forall q | q in FoundIn(ComponentAt(v, p).value, "").refs ensures Reachable(v, q) {
          ReachableOnward(v, p, q);
        }
        ExpansionUnchanged(v, ComponentAt(v, p).value, "", depth - 1);
      }
    } else {
      ExpansionUnchanged(v, f.value, f.name, depth);
    }
  }

  /** The published contract means the same before and after pruning, to any depth. */
  lemma {:induction false} PruningPreservesMeaning(v: View, depth: nat)
    requires KeepsWhatItReaches(v)
    ensures Pruned(v).body == v.body
    ensures Expand(Pruned(v), Obj(v.body), depth) == Expand(v, Obj(v.body), depth)
  {
    hide Reachable, KeepsWhatItReaches;
    forall p | p in FoundIn(Obj(v.body), "").refs ensures Reachable(v, p) {
      ReachableFromOutside(v, p);
    }
    ExpansionUnchanged(v, Obj(v.body), "", depth);
  }

  /** No tag entry that is dropped mentions a component, a scheme or a tag. */
  ghost predicate DroppedTagsAreBare(v: View) {
    v.tags.Some? ==>
      forall t :: t in v.tags.value && !TagKept(v, t) ==> TagOf(t, "tags").Plus(FoundIn(t, "")) == NOTHING
  }

  lemma {:induction false} DroppingNothingFound(items: seq<Json>, keep: Json -> bool, n: nat)
    requires n <= |items|
    requires forall t :: t in items && !keep(t) ==> TagOf(t, "tags").Plus(FoundIn(t, "")) == NOTHING
    ensures var kept := Filter(items[..n], keep);
            FoundInItems(kept, "tags", |kept|) == FoundInItems(items, "tags", n)
  {
    hide FoundIn, TagOf, Filter, FoundInItems;
    FoundInUnfolds(items, n);
    if n == 0 {
      assert items[..0] == [];
      FilterAll(items[..0], keep);
    } else {
      DroppingNothingFound(items, keep, n - 1);
      FilterSnoc(items, keep, n);
      assert items[n - 1] in items;
      OneMoreFound(Filter(items[..n - 1], keep), items[n - 1], FoundInItems(items, "tags", n - 1));
    }
  }

  lemma {:induction false} FoundInUnfolds(items: seq<Json>, n: nat)
    requires n <= |items|
    ensures FoundInItems(items, "tags", n) ==
            if n == 0 then NOTHING
            else FoundInItems(items, "tags", n - 1).Plus(TagOf(items[n - 1], "tags").Plus(FoundIn(items[n - 1], "")))
    ensures FoundInItems([], "tags", 0) == NOTHING
  {
    hide FoundIn, TagOf;
  }

  lemma {:induction false} OneMoreFound(kept: seq<Json>, item: Json, before: Found)
    requires FoundInItems(kept, "tags", |kept|) == before
    ensures FoundInItems(kept + [item], "tags", |kept| + 1) == before.Plus(TagOf(item, "tags").Plus(FoundIn(item, "")))
    ensures before.Plus(NOTHING) == before
    ensures kept + [] == kept
  {
    hide FoundIn, TagOf;
    FoundInPrefix(kept, [item], |kept|);
    NothingAdded(before);
  }

  lemma {:induction false} FilterSnoc(items: seq<Json>, keep: Json -> bool, n: nat)
    requires 0 < n <= |items|
    ensures Filter(items[..n], keep) == Filter(items[..n - 1], keep) + if keep(items[n - 1]) then [items[n - 1]] else []
  {
    assert items[..n] == items[..n - 1] + [items[n - 1]];
    FilterConcat(items[..n - 1], [items[n - 1]], keep);
    var one := [items[n - 1]];
    assert one[1..] == [] && one[0] == items[n - 1];
    assert Filter(one, keep) == (if keep(one[0]) then [one[0]] else []) + Filter(one[1..], keep);
  }

  lemma {:induction false} NothingAdded(f: Found)
    ensures f.Plus(NOTHING) == f
  {
  }

  lemma {:induction false} FoundInPrefix(items: seq<Json>, more: seq<Json>, n: nat)
    requires n <= |items|
    ensures FoundInItems(items + more, "tags", n) == FoundInItems(items, "tags", n)
  {
    hide FoundIn;
    if n > 0 {
      FoundInPrefix(items, more, n - 1);
    }
  }

  lemma {:induction false} OutsideUnchanged(v: View)
    requires DroppedTagsAreBare(v)
    ensures FoundOutside(Pruned(v)) == FoundOutside(v)
  {
    hide FoundInFields, FoundInItems, Filter, TagKept;
    if v.tags.Some? {
      var tags := v.tags.value;
      DroppingNothingFound(tags, entry => TagKept(v, entry), |tags|);
      assert tags[..|tags|] == tags;
    }
  }

  lemma {:induction false} FoundAtUnchanged(v: View, p: string)
    requires KeepsWhatItReaches(v) && Reachable(v, p)
    ensures FoundAt(Pruned(v), p) == FoundAt(v, p)
  {
    hide Reachable, KeepsWhatItReaches, Pruned, ComponentAt, FoundIn;
    BreaksNoReference(v);
  }

  lemma {:induction false} TrailUnchanged(v: View, trail: seq<string>)
    requires KeepsWhatItReaches(v) && DroppedTagsAreBare(v)
    ensures IsTrail(Pruned(v), trail) <==> IsTrail(v, trail)
  {
    hide KeepsWhatItReaches, DroppedTagsAreBare, Pruned, FoundAt, FoundOutside;
    OutsideUnchanged(v);
    if |trail| > 1 {
      var before := trail[..|trail| - 1];
      TrailUnchanged(v, before);
      if IsTrail(v, before) {
        assert Reachable(v, trail[|trail| - 2]);
        FoundAtUnchanged(v, trail[|trail| - 2]);
        TrailSnoc(v, trail);
        TrailSnoc(Pruned(v), trail);
      } else {
        TrailPrefix(v, trail);
        TrailPrefix(Pruned(v), trail);
      }
    }
  }

  lemma {:induction false} TrailPrefix(v: View, trail: seq<string>)
    requires |trail| > 1
    ensures IsTrail(v, trail) ==> IsTrail(v, trail[..|trail| - 1])
  {
    hide FoundAt, FoundOutside;
  }

  lemma {:induction false} TrailSnoc(v: View, trail: seq<string>)
    requires |trail| > 1 && IsTrail(v, trail[..|trail| - 1])
    ensures IsTrail(v, trail) <==> trail[|trail| - 1] in FoundAt(v, trail[|trail| - 2]).refs
  {
    hide FoundAt, FoundOutside;
    var before := trail[..|trail| - 1];
    forall i, j | 0 <= i && j == i + 1 < |trail| - 1 ensures trail[j] in FoundAt(v, trail[i]).refs {
      assert before[j] in FoundAt(v, before[i]).refs;
    }
  }

  /** Nothing becomes unreachable, unnamed or unused by pruning. */
  lemma {:induction false} ReachUnchanged(v: View)
    requires KeepsWhatItReaches(v) && DroppedTagsAreBare(v)
    ensures forall p :: Reachable(Pruned(v), p) <==> Reachable(v, p)
    ensures forall s :: SchemeUsed(Pruned(v), s) <==> SchemeUsed(v, s)
    ensures forall t :: TagUsed(Pruned(v), t) <==> TagUsed(v, t)
  {
    hide KeepsWhatItReaches, DroppedTagsAreBare, Pruned, FoundAt, FoundOutside;
    forall trail ensures IsTrail(Pruned(v), trail) <==> IsTrail(v, trail) {
      TrailUnchanged(v, trail);
    }
    OutsideUnchanged(v);
    forall p | Reachable(v, p) ensures FoundAt(Pruned(v), p) == FoundAt(v, p) {
      FoundAtUnchanged(v, p);
    }
    forall p ensures Reachable(Pruned(v), p) <==> Reachable(v, p) {
      if Reachable(v, p) {
        var trail :| IsTrail(v, trail) && trail[|trail| - 1] == p;
        assert IsTrail(Pruned(v), trail);
      }
    }
  }

  /** Pruning a pruned document changes nothing. */
  lemma {:induction false} PruningIsIdempotent(v: View)
    requires KeepsWhatItReaches(v) && DroppedTagsAreBare(v)
    ensures Pruned(Pruned(v)) == Pruned(v)
  {
    hide KeepsWhatItReaches, DroppedTagsAreBare, Reachable, SchemeUsed, TagUsed, Filter;
    ReachUnchanged(v);
    var w := Pruned(v);
    forall kind | kind in w.components ensures KeptOf(w, kind) == w.components[kind] {
      assert w.components[kind] == KeptOf(v, kind);
    }
    if v.tags.Some? {
      assert forall t :: t in w.tags.value ==> TagKept(v, t);
      FilterAll(w.tags.value, entry => TagKept(w, entry));
    }
  }
}
