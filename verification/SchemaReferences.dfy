/** Which references the ordering walk reads: every one by a plain name, in the order they are written. */
module SchemaReferences {
  import opened Basics
  import opened JsonTree
  import opened JsonPaths
  import opened Text
  import opened Order = SchemaOrder

  // ---------------------------------------------------------------- names a reference can be read by

  /** Letters, digits and underscores. */
  ghost predicate IsPlainName(name: string) {
    name != "" && forall c :: c in name ==> IsLetterOrDigit(c) || c == '_'
  }

  lemma {:induction false} WordChars(c: char)
    ensures IsWordChar(c) <==> IsLetterOrDigit(c) || c == '_'
  {
  }

  /** A reference is read exactly when it is a plain name behind `#/components/schemas/`. */
  lemma {:induction false} ReadsPlainNames(ref: string, name: string)
    ensures LocalName(ref) == Some(name) <==> ref == "#/components/schemas/" + name && IsPlainName(name)
  {
    hide IsWordChar, IsLetterOrDigit;
    forall c ensures IsWordChar(c) <==> IsLetterOrDigit(c) || c == '_' {
      WordChars(c);
    }
    if ref == "#/components/schemas/" + name {
      assert ref[|SCHEMA_PREFIX|..] == name;
    }
    if LocalName(ref) == Some(name) {
      assert ref == SCHEMA_PREFIX + ref[|SCHEMA_PREFIX|..];
    }
  }

  // ---------------------------------------------------------------- places, in document order

  /** One place comes before another in the text: they part at a node, and it lies in an earlier child. */
  predicate Earlier(p: Path, q: Path) {
    p != [] && q != [] && (p[0] < q[0] || (p[0] == q[0] && Earlier(p[1..], q[1..])))
  }

  /** At this place, under the key `$ref`, stands a reference by this name. */
  ghost predicate RefersAt(root: Json, key: string, path: Path, name: string) {
    && JsonPaths.Leads(root, path, Str("#/components/schemas/" + name)) && KeyAt(root, path, key) == "$ref"
    && IsPlainName(name)
  }

  /** The places of these names, one by one and in document order, and there are no others. */
  ghost predicate Enumerates(at: seq<Path>, names: seq<string>, isPlace: (Path, string) -> bool) {
    && |at| == |names|
    && (forall i, j :: 0 <= i < j < |at| ==> Earlier(at[i], at[j]))
    && (forall i :: 0 <= i < |at| ==> isPlace(at[i], names[i]))
    && forall path, name :: isPlace(path, name) ==> path in at
  }

  lemma {:induction false} Nothing(isPlace: (Path, string) -> bool)
    requires forall path, name :: !isPlace(path, name)
    ensures Enumerates([], [], isPlace)
  {
  }

  /** All places of one part, then all of another that comes later. */
  lemma {:induction false} OneAfterAnother(at: seq<Path>, names: seq<string>, first: (Path, string) -> bool,
                                           at': seq<Path>, names': seq<string>, second: (Path, string) -> bool,
                                           both: (Path, string) -> bool)
    requires Enumerates(at, names, first) && Enumerates(at', names', second)
    requires forall path, name :: both(path, name) <==> first(path, name) || second(path, name)
    requires forall i, j :: 0 <= i < |at| && 0 <= j < |at'| ==> Earlier(at[i], at'[j])
    ensures Enumerates(at + at', names + names', both)
  {
    hide Earlier;
  }

  /** The places of a child, seen from its parent. */
  function Below(n: nat, at: seq<Path>): (r: seq<Path>)
    ensures |r| == |at| && forall i :: 0 <= i < |r| ==> r[i] == [n] + at[i]
  {
    seq(|at|, i requires 0 <= i < |at| => [n] + at[i])
  }

  lemma {:induction false} SeenFromParent(n: nat, at: seq<Path>, names: seq<string>, child: (Path, string) -> bool,
                                          parent: (Path, string) -> bool)
    requires Enumerates(at, names, child)
    requires forall path, name :: parent(path, name) <==> path != [] && path[0] == n && child(path[1..], name)
    ensures Enumerates(Below(n, at), names, parent)
  {
    var below := Below(n, at);
    forall i, j | 0 <= i < j < |below| ensures Earlier(below[i], below[j]) {
      assert below[i][1..] == at[i] && below[j][1..] == at[j];
    }
    forall i | 0 <= i < |below| ensures parent(below[i], names[i]) {
      assert below[i][1..] == at[i];
    }
    hide Earlier;
    forall path, name | parent(path, name) ensures path in below {
      var i :| 0 <= i < |at| && at[i] == path[1..];
      assert path == [n] + at[i];
      assert below[i] == path;
    }
  }

  // ---------------------------------------------------------------- the walk reads them all, in order

  /** What the walk reads at and below a node standing under a key. */
  function ReadUnder(node: Json, key: string): seq<string> {
    OwnReference(Field(key, node)) + ReferencesIn(node)
  }

  ghost function Places(node: Json, key: string): (Path, string) -> bool {
    (path, name) => RefersAt(node, key, path, name)
  }

  lemma {:induction false} PlacesUnder(node: Json, key: string) returns (at: seq<Path>)
    ensures Enumerates(at, ReadUnder(node, key), Places(node, key))
    decreases node, 1
  {
    hide Enumerates, Earlier, IsPlainName, LocalName;
    match node
    case Str(ref) =>
      at := PlaceOfText(ref, key);
    case Arr(items) =>
      at := PlacesInItems(items, key, 0);
      assert items[0..] == items;
      assert ReadUnder(node, key) == ReferencesInItems(items);
      SameEnumeration(at, ReferencesInItems(items), ItemPlaces(items, key, 0), Places(node, key));
    case Obj(fields) =>
      at := PlacesInFields(fields, key, 0);
      assert fields[0..] == fields;
      assert ReadUnder(node, key) == ReferencesInFields(fields);
      SameEnumeration(at, ReferencesInFields(fields), FieldPlaces(fields, key, 0), Places(node, key));
    case _ =>
      at := [];
      assert ReadUnder(node, key) == [];
      Nothing(Places(node, key));
  }

  lemma {:induction false} SameEnumeration(at: seq<Path>, names: seq<string>, was: (Path, string) -> bool, now: (Path, string) -> bool)
    requires Enumerates(at, names, was) && forall path, name :: was(path, name) <==> now(path, name)
    ensures Enumerates(at, names, now)
  {
    hide Earlier;
  }

  lemma {:induction false} PlaceOfText(ref: string, key: string) returns (at: seq<Path>)
    ensures Enumerates(at, ReadUnder(Str(ref), key), Places(Str(ref), key))
  {
    hide IsPlainName, LocalName;
    forall name ensures LocalName(ref) == Some(name) <==> ref == "#/components/schemas/" + name && IsPlainName(name) {
      ReadsPlainNames(ref, name);
    }
    at := if key == "$ref" && LocalName(ref).Some? then [[]] else [];
    assert ReadUnder(Str(ref), key) == OwnReference(Field(key, Str(ref)));
  }

  ghost function ItemPlaces(items: seq<Json>, key: string, n: nat): (Path, string) -> bool {
    (path, name) => path != [] && n <= path[0] && RefersAt(Arr(items), key, path, name)
  }

  ghost function FieldPlaces(fields: seq<Field>, key: string, n: nat): (Path, string) -> bool {
    (path, name) => path != [] && n <= path[0] && RefersAt(Obj(fields), key, path, name)
  }

  lemma {:induction false} PlacesInItems(items: seq<Json>, key: string, n: nat) returns (at: seq<Path>)
    requires n <= |items|
    ensures Enumerates(at, ReferencesInItems(items[n..]), ItemPlaces(items, key, n))
    ensures forall i :: 0 <= i < |at| ==> at[i] != [] && n <= at[i][0]
    decreases items, |items| - n
  {
    hide Enumerates, Earlier, IsPlainName, LocalName;
    if n == |items| {
      at := [];
      Nothing(ItemPlaces(items, key, n));
    } else {
      var inside := PlacesUnder(items[n], "");
      var rest := PlacesInItems(items, key, n + 1);
      var here := (path: Path, name: string) => path != [] && path[0] == n && RefersAt(items[n], "", path[1..], name);
      SeenFromParent(n, inside, ReadUnder(items[n], ""), Places(items[n], ""), here);
      at := Below(n, inside) + rest;
      assert items[n..][1..] == items[n + 1..];
      assert ReadUnder(items[n], "") == ReferencesIn(items[n]);
      StartsBelow(n, inside, rest);
      OneAfterAnother(Below(n, inside), ReferencesIn(items[n]), here, rest, ReferencesInItems(items[n + 1..]),
                      ItemPlaces(items, key, n + 1), ItemPlaces(items, key, n));
    }
  }

  lemma {:induction false} PlacesInFields(fields: seq<Field>, key: string, n: nat) returns (at: seq<Path>)
    requires n <= |fields|
    ensures Enumerates(at, ReferencesInFields(fields[n..]), FieldPlaces(fields, key, n))
    ensures forall i :: 0 <= i < |at| ==> at[i] != [] && n <= at[i][0]
    decreases fields, |fields| - n
  {
    hide Enumerates, Earlier, IsPlainName, LocalName;
    if n == |fields| {
      at := [];
      Nothing(FieldPlaces(fields, key, n));
    } else {
      var f := fields[n];
      var inside := PlacesUnder(f.value, f.name);
      var rest := PlacesInFields(fields, key, n + 1);
      var here := (path: Path, name: string) => path != [] && path[0] == n && RefersAt(f.value, f.name, path[1..], name);
      SeenFromParent(n, inside, ReadUnder(f.value, f.name), Places(f.value, f.name), here);
      at := Below(n, inside) + rest;
      assert fields[n..][1..] == fields[n + 1..];
      assert ReadUnder(f.value, f.name) == OwnReference(f) + ReferencesIn(f.value);
      StartsBelow(n, inside, rest);
      OneAfterAnother(Below(n, inside), ReadUnder(f.value, f.name), here, rest, ReferencesInFields(fields[n + 1..]),
                      FieldPlaces(fields, key, n + 1), FieldPlaces(fields, key, n));
    }
  }

  lemma {:induction false} StartsBelow(n: nat, inside: seq<Path>, rest: seq<Path>)
    requires forall i :: 0 <= i < |rest| ==> rest[i] != [] && n + 1 <= rest[i][0]
    ensures forall i, j :: 0 <= i < |inside| && 0 <= j < |rest| ==> Earlier(Below(n, inside)[i], rest[j])
  {
  }

  /**
   * The names the walk reads in a schema are exactly those standing under a `$ref` anywhere in it, each
   * for its place, in the order of the text.
   */
  lemma {:induction false} ReadsEveryReferenceInOrder(schema: Json) returns (at: seq<Path>)
    ensures |at| == |ReferencesIn(schema)|
    ensures forall i, j :: 0 <= i < j < |at| ==> Earlier(at[i], at[j])
    ensures forall i :: 0 <= i < |at| ==> RefersAt(schema, "", at[i], ReferencesIn(schema)[i])
    ensures forall path, name :: RefersAt(schema, "", path, name) ==> path in at
  {
    hide RefersAt, Earlier, LocalName;
    at := PlacesUnder(schema, "");
    assert ReadUnder(schema, "") == ReferencesIn(schema);
    assert forall path, name :: RefersAt(schema, "", path, name) ==> Places(schema, "")(path, name);
  }

  /** The name is at this position, and at none before. */
  predicate FirstAt(names: seq<string>, name: string, at: nat) {
    at < |names| && names[at] == name && name !in names[..at]
  }

  /** The names once each, in the order in which each is first read. */
  lemma {:induction false} OnceKeepsTheFirst(names: seq<string>) returns (first: seq<nat>)
    ensures |first| == |Once(names)|
    ensures forall i, j :: 0 <= i < j < |first| ==> first[i] < first[j]
    ensures forall i :: 0 <= i < |first| ==> FirstAt(names, Once(names)[i], first[i])
  {
    hide FirstAt;
    if names == [] {
      first := [];
    } else {
      var init, last := names[..|names| - 1], names[|names| - 1];
      var before := OnceKeepsTheFirst(init);
      forall i | 0 <= i < |before| ensures FirstAt(names, Once(init)[i], before[i]) && before[i] < |init| {
        StillFirst(names, Once(init)[i], before[i]);
      }
      if last in Once(init) {
        first := before;
      } else {
        first := before + [|init|];
        LastIsFirst(names);
      }
    }
  }

  lemma {:induction false} StillFirst(names: seq<string>, name: string, at: nat)
    requires names != [] && FirstAt(names[..|names| - 1], name, at)
    ensures FirstAt(names, name, at) && at < |names| - 1
  {
    assert names[..|names| - 1][..at] == names[..at];
  }

  lemma {:induction false} LastIsFirst(names: seq<string>)
    requires names != [] && names[|names| - 1] !in Once(names[..|names| - 1])
    ensures FirstAt(names, names[|names| - 1], |names| - 1)
  {
  }

  /** A schema uses another exactly when that one is in the section and stands under a `$ref` in it. */
  lemma {:induction false} UsesExactly(items: Schemas, i: nat, name: string)
    requires Named(items) && i < |items|
    ensures Uses(items, items[i].name, name) <==>
            (exists f :: f in items && f.name == name) && exists path :: RefersAt(items[i].value, "", path, name)
  {
    hide RefersAt, Earlier, LocalName, ReferencesIn;
    LookupItem(items, i);
    var at := ReadsEveryReferenceInOrder(items[i].value);
    if path :| RefersAt(items[i].value, "", path, name) {
      var k :| 0 <= k < |at| && at[k] == path;
      OnePlaceOneName(items[i].value, path, name, ReferencesIn(items[i].value)[k]);
    }
    if name in ReferencesIn(items[i].value) {
      var k :| 0 <= k < |at| && ReferencesIn(items[i].value)[k] == name;
      assert RefersAt(items[i].value, "", at[k], name);
    }
  }

  lemma {:induction false} OnePlaceOneName(root: Json, path: Path, a: string, b: string)
    requires RefersAt(root, "", path, a) && RefersAt(root, "", path, b)
    ensures a == b
  {
    OneNode(root, path, Str("#/components/schemas/" + a), Str("#/components/schemas/" + b));
    assert ("#/components/schemas/" + a)[21..] == a;
    assert ("#/components/schemas/" + b)[21..] == b;
  }

  lemma {:induction false} OneNode(root: Json, path: Path, a: Json, b: Json)
    requires JsonPaths.Leads(root, path, a) && JsonPaths.Leads(root, path, b)
    ensures a == b
    decreases |path|
  {
    if path != [] {
      OneNode(if root.Arr? then root.items[path[0]] else root.fields[path[0]].value, path[1..], a, b);
    }
  }
}
