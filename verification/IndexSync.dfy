/** Reconciling a database's indexes with the schemas that declare them. */
module IndexSync {
  import opened Basics

  // ---------------------------------------------------------------- indexes, rows and models

  datatype KeyPart = KeyPart(field: string, order: string)

  /** A key spec, of at least one field; two print as the same JSON text exactly when they are equal. */
  type Key = k: seq<KeyPart> | |k| > 0 witness [KeyPart("_id", "1")]

  /** Which documents an index has entries for. The server takes a filter or `sparse`, not both. */
  datatype Coverage = AllRows | Sparse | Partial(filter: string)

  datatype Options = Options(unique: bool, coverage: Coverage, others: string)

  datatype Declared = Declared(key: Key, name: string, options: Options)

  datatype Stored = Stored(name: string, key: Key, options: Options)

  /** A stored value; an index entry holds null for an absent field too. */
  datatype Cell = Null | Cell(value: int)

  /** One document: its fields, explicit nulls among them, and the partial filters it satisfies. */
  datatype Row = Row(cells: map<string, Cell>, filters: set<string>)

  datatype Model = Model(collection: string, declared: seq<Declared>, retired: seq<string>)

  const ID_INDEX := "_id_"

  // ---------------------------------------------------------------- what the library promises

  /** Mongoose's comparison: key and options, whatever the name. */
  predicate Matches(d: Declared, s: Stored) {
    d.key == s.key && d.options == s.options
  }

  predicate Undeclared(declared: seq<Declared>, s: Stored) {
    s.name != ID_INDEX && forall d :: d in declared ==> !Matches(d, s)
  }

  /** The stored names `diffIndexes` says no declaration matches. */
  function ToDrop(declared: seq<Declared>, stored: seq<Stored>): (r: seq<string>)
    ensures forall x :: x in r <==> exists s :: s in stored && Undeclared(declared, s) && s.name == x
  {
    if stored == [] then []
    else
      assert forall s :: s in stored <==> s == stored[0] || s in stored[1..];
      (if Undeclared(declared, stored[0]) then [stored[0].name] else []) + ToDrop(declared, stored[1..])
  }

  predicate Missing(d: Declared, stored: seq<Stored>) {
    forall s :: s in stored && s.name != ID_INDEX ==> !Matches(d, s)
  }

  /** The declared keys `diffIndexes` says no stored index matches. */
  function ToCreate(declared: seq<Declared>, stored: seq<Stored>): (r: seq<Key>)
    ensures forall k :: k in r <==> exists d :: d in declared && Missing(d, stored) && d.key == k
  {
    if declared == [] then []
    else
      assert forall d :: d in declared <==> d == declared[0] || d in declared[1..];
      (if Missing(declared[0], stored) then [declared[0].key] else []) + ToCreate(declared[1..], stored)
  }

  function CellOf(row: Row, field: string): Cell {
    if field in row.cells then row.cells[field] else Null
  }

  /** Two documents land on the same index entry. */
  predicate SameEntry(a: Row, b: Row, key: Key) {
    forall i :: 0 <= i < |key| ==> CellOf(a, key[i].field) == CellOf(b, key[i].field)
  }

  /** A sparse index passes over the documents that have none of its fields. */
  predicate HasSome(row: Row, key: Key) {
    exists i :: 0 <= i < |key| && key[i].field in row.cells
  }

  /** The index has an entry for this document. */
  predicate Covers(d: Declared, row: Row) {
    match d.options.coverage
    case AllRows => true
    case Sparse => HasSome(row, d.key)
    case Partial(filter) => filter in row.filters
  }

  /** A unique index cannot be built over these documents. */
  predicate Violated(rows: seq<Row>, d: Declared) {
    && d.options.unique
    && exists i, j :: 0 <= i < j < |rows| && Covers(d, rows[i]) && Covers(d, rows[j])
         && SameEntry(rows[i], rows[j], d.key)
  }

  predicate SameIndex(d: Declared, s: Stored) {
    d.name == s.name && d.key == s.key && d.options == s.options
  }

  /** Another index already holds the key or the name. */
  predicate Clashes(d: Declared, stored: seq<Stored>) {
    exists s :: s in stored && !SameIndex(d, s) && (s.key == d.key || s.name == d.name)
  }

  /** The server's `createIndex`: nothing to do, a refusal, or one more index. */
  function CreateOne(d: Declared, stored: seq<Stored>, rows: seq<Row>): Option<seq<Stored>> {
    if Clashes(d, stored) then None
    else if exists s :: s in stored && SameIndex(d, s) then Some(stored)
    else if Violated(rows, d) then None
    else Some(stored + [Stored(d.name, d.key, d.options)])
  }

  /** `createIndexes` succeeds when it can build every declaration in turn. */
  function CreateAll(declared: seq<Declared>, stored: seq<Stored>, rows: seq<Row>): Option<seq<Stored>> {
    if declared == [] then Some(stored)
    else
      match CreateOne(declared[0], stored, rows)
      case None => None
      case Some(next) => CreateAll(declared[1..], next, rows)
  }

  // ---------------------------------------------------------------- the plan for one collection

  datatype Replaced = Replaced(name: string, key: Key)

  datatype IndexDiff = IndexDiff(collection: string, toCreate: seq<Key>, toReplace: seq<Replaced>,
                                 toDropRetired: seq<string>, toDropUndeclared: seq<string>, kept: seq<string>)

  predicate HasChanges(diff: IndexDiff) {
    diff.toCreate != [] || diff.toReplace != [] || diff.toDropRetired != [] || diff.toDropUndeclared != []
  }

  /** The stored key of a name, by a map built in order. */
  function KeyOf(stored: seq<Stored>, name: string): (r: Option<Key>)
    ensures r.Some? ==> exists s :: s in stored && s.name == name && s.key == r.value
    ensures r.None? <==> forall s :: s in stored ==> s.name != name
  {
    if stored == [] then None
    else
      var last := stored[|stored| - 1];
      assert forall s :: s in stored <==> s == last || s in stored[..|stored| - 1];
      if last.name == name then Some(last.key) else KeyOf(stored[..|stored| - 1], name)
  }

  /** `findIndex`: the first key to create that is the stored one. */
  function IndexOfKey(created: seq<Key>, key: Option<Key>): (at: Option<nat>)
    ensures at.Some? ==> at.value < |created| && key == Some(created[at.value])
    ensures at.None? ==> forall k :: k in created ==> key != Some(k)
  {
    if created == [] then None
    else if key == Some(created[0]) then Some(0)
    else
      match IndexOfKey(created[1..], key)
      case None => None
      case Some(i) => Some(i + 1)
  }

  datatype Sorted = Sorted(created: seq<Key>, replaced: seq<Replaced>, retired: seq<string>, rest: seq<string>)

  function RemoveAt<T>(s: seq<T>, i: nat): seq<T>
    requires i < |s|
  {
    s[..i] + s[i + 1..]
  }

  /** Each undeclared name paired with a key to create, retired, or left over. */
  function SortDrops(toDrop: seq<string>, created: seq<Key>, stored: seq<Stored>, retired: seq<string>): Sorted {
    if toDrop == [] then Sorted(created, [], [], [])
    else
      var name := toDrop[0];
      match IndexOfKey(created, KeyOf(stored, name))
      case Some(at) =>
        var r := SortDrops(toDrop[1..], RemoveAt(created, at), stored, retired);
        r.(replaced := [Replaced(name, created[at])] + r.replaced)
      case None =>
        var r := SortDrops(toDrop[1..], created, stored, retired);
        if name in retired then r.(retired := [name] + r.retired) else r.(rest := [name] + r.rest)
  }

  function SortAll(m: Model, stored: seq<Stored>): Sorted {
    SortDrops(ToDrop(m.declared, stored), ToCreate(m.declared, stored), stored, m.retired)
  }

  function DiffOf(m: Model, stored: seq<Stored>, prune: bool): IndexDiff {
    var r := SortAll(m, stored);
    IndexDiff(m.collection, r.created, r.replaced, r.retired, if prune then r.rest else [], if prune then [] else r.rest)
  }

  /** What the scan does with the first name, whatever it does with the later ones. */
  lemma {:induction false} SortOne(toDrop: seq<string>, created: seq<Key>, stored: seq<Stored>, retired: seq<string>)
    requires toDrop != []
    ensures var at := IndexOfKey(created, KeyOf(stored, toDrop[0]));
            if at.Some? then
              var r := SortDrops(toDrop[1..], RemoveAt(created, at.value), stored, retired);
              SortDrops(toDrop, created, stored, retired) ==
              Sorted(r.created, [Replaced(toDrop[0], created[at.value])] + r.replaced, r.retired, r.rest)
            else
              var r := SortDrops(toDrop[1..], created, stored, retired);
              SortDrops(toDrop, created, stored, retired) ==
              if toDrop[0] in retired then Sorted(r.created, r.replaced, [toDrop[0]] + r.retired, r.rest)
              else Sorted(r.created, r.replaced, r.retired, [toDrop[0]] + r.rest)
  {
  }

  lemma {:induction false} SortNone(created: seq<Key>, stored: seq<Stored>, retired: seq<string>)
    ensures SortDrops([], created, stored, retired) == Sorted(created, [], [], [])
  {
  }

  method Classify(m: Model, stored: seq<Stored>, toCreate: seq<Key>, toDrop: seq<string>, prune: bool)
    returns (diff: IndexDiff)
    requires toCreate == ToCreate(m.declared, stored) && toDrop == ToDrop(m.declared, stored)
    ensures diff == DiffOf(m, stored, prune)
  {
    var created := toCreate;
    var toReplace: seq<Replaced> := [];
    var toDropRetired: seq<string> := [];
    var rest: seq<string> := [];
    hide SortDrops, IndexOfKey, KeyOf;
    assert toDrop[0..] == toDrop;
    for i := 0 to |toDrop|
      invariant var r := SortDrops(toDrop[i..], created, stored, m.retired);
                SortAll(m, stored) == Sorted(r.created, toReplace + r.replaced, toDropRetired + r.retired, rest + r.rest)
    {
      var name := toDrop[i];
      assert toDrop[i..][0] == name && toDrop[i..][1..] == toDrop[i + 1..];
      SortOne(toDrop[i..], created, stored, m.retired);
      var at := IndexOfKey(created, KeyOf(stored, name));
      if at.Some? {
        toReplace := toReplace + [Replaced(name, created[at.value])];
        created := RemoveAt(created, at.value);
      } else if name in m.retired {
        toDropRetired := toDropRetired + [name];
      } else {
        rest := rest + [name];
      }
    }
    assert toDrop[|toDrop|..] == [];
    SortNone(created, stored, m.retired);
    diff := IndexDiff(m.collection, created, toReplace, toDropRetired,
                      if prune then rest else [], if prune then [] else rest);
  }

  // ---------------------------------------------------------------- classification

  function ReplacedNames(rs: seq<Replaced>): (r: seq<string>)
    ensures |r| == |rs| && forall i :: 0 <= i < |rs| ==> r[i] == rs[i].name
  {
    seq(|rs|, i requires 0 <= i < |rs| => rs[i].name)
  }

  function ReplacedKeys(rs: seq<Replaced>): (r: seq<Key>)
    ensures |r| == |rs| && forall i :: 0 <= i < |rs| ==> r[i] == rs[i].key
  {
    seq(|rs|, i requires 0 <= i < |rs| => rs[i].key)
  }

  lemma {:induction false} RemovedOne<T>(s: seq<T>, i: nat)
    requires i < |s|
    ensures multiset(s) == multiset(RemoveAt(s, i)) + multiset{s[i]}
  {
    assert s == s[..i] + [s[i]] + s[i + 1..];
  }

  /** Every undeclared name goes to exactly one heap. */
  lemma {:induction false} NamesConserved(toDrop: seq<string>, created: seq<Key>, stored: seq<Stored>, retired: seq<string>)
    ensures var r := SortDrops(toDrop, created, stored, retired);
            multiset(toDrop) == multiset(ReplacedNames(r.replaced)) + multiset(r.retired) + multiset(r.rest)
  {
    hide KeyOf, IndexOfKey, RemoveAt;
    if toDrop != [] {
      var name := toDrop[0];
      assert toDrop == [name] + toDrop[1..];
      var at := IndexOfKey(created, KeyOf(stored, name));
      if at.Some? {
        NamesConserved(toDrop[1..], RemoveAt(created, at.value), stored, retired);
        var inner := SortDrops(toDrop[1..], RemoveAt(created, at.value), stored, retired).replaced;
        assert ReplacedNames([Replaced(name, created[at.value])] + inner) == [name] + ReplacedNames(inner);
      } else {
        NamesConserved(toDrop[1..], created, stored, retired);
      }
    }
  }

  lemma {:induction false} ReplacedHead(x: Replaced, rest: seq<Replaced>)
    ensures multiset(ReplacedKeys([x] + rest)) == multiset{x.key} + multiset(ReplacedKeys(rest))
  {
    assert ReplacedKeys([x] + rest) == [x.key] + ReplacedKeys(rest);
  }

  /** No key to create is lost or made up: each is created or rebuilt. */
  lemma {:induction false} KeysConserved(toDrop: seq<string>, created: seq<Key>, stored: seq<Stored>, retired: seq<string>)
    ensures var r := SortDrops(toDrop, created, stored, retired);
            multiset(created) == multiset(r.created) + multiset(ReplacedKeys(r.replaced))
  {
    hide KeyOf, IndexOfKey, RemoveAt;
    if toDrop != [] {
      var name := toDrop[0];
      var at := IndexOfKey(created, KeyOf(stored, name));
      if at.Some? {
        var left := RemoveAt(created, at.value);
        KeysConserved(toDrop[1..], left, stored, retired);
        RemovedOne(created, at.value);
        var inner := SortDrops(toDrop[1..], left, stored, retired).replaced;
        ReplacedHead(Replaced(name, created[at.value]), inner);
      } else {
        KeysConserved(toDrop[1..], created, stored, retired);
      }
    }
  }

  /** A name is replaced by its own stored key, and no name left unpaired could still have been paired. */
  lemma {:induction false} PairingIsMaximal(toDrop: seq<string>, created: seq<Key>, stored: seq<Stored>, retired: seq<string>)
    ensures var r := SortDrops(toDrop, created, stored, retired);
            && (forall x :: x in r.replaced ==> x.name in toDrop && KeyOf(stored, x.name) == Some(x.key) && x.key in created)
            && (forall name :: name in r.retired ==> name in toDrop && name in retired)
            && (forall name :: name in r.rest ==> name in toDrop && name !in retired)
            && (forall name, k :: name in r.retired + r.rest && k in r.created ==> KeyOf(stored, name) != Some(k))
            && (forall k :: k in r.created ==> k in created)
  {
    hide KeyOf, IndexOfKey;
    if toDrop != [] {
      var name := toDrop[0];
      match IndexOfKey(created, KeyOf(stored, name)) {
        case Some(at) =>
          PairingIsMaximal(toDrop[1..], RemoveAt(created, at), stored, retired);
        case None =>
          PairingIsMaximal(toDrop[1..], created, stored, retired);
      }
    }
  }

  // ---------------------------------------------------------------- one collection, synced

  function DropsOf(diff: IndexDiff): seq<string> {
    ReplacedNames(diff.toReplace) + diff.toDropRetired + diff.toDropUndeclared
  }

  function AfterDrops(stored: seq<Stored>, names: seq<string>): (r: seq<Stored>)
    ensures forall s :: s in r <==> s in stored && s.name !in names
  {
    Filter(stored, (s: Stored) => s.name !in names)
  }

  /** The indexes a sync leaves alone. */
  function Left(m: Model, stored: seq<Stored>, prune: bool): seq<Stored> {
    AfterDrops(stored, DropsOf(DiffOf(m, stored, prune)))
  }

  /** What applying one collection's plan leaves, or nothing when `createIndexes` refuses. */
  function SyncOne(m: Model, stored: seq<Stored>, rows: seq<Row>, prune: bool): Option<seq<Stored>> {
    if HasChanges(DiffOf(m, stored, prune)) then CreateAll(m.declared, Left(m, stored, prune), rows) else Some(stored)
  }

  /** Names and keys are unique among a collection's stored indexes. */
  ghost predicate WellStored(stored: seq<Stored>) {
    forall i, j :: 0 <= i < j < |stored| ==> stored[i].name != stored[j].name && stored[i].key != stored[j].key
  }

  /** Names and keys are unique among a model's declarations, and none is the primary key's own index. */
  ghost predicate WellDeclared(declared: seq<Declared>) {
    && (forall i, j :: 0 <= i < j < |declared| ==>
          declared[i].name != declared[j].name && declared[i].key != declared[j].key)
    && forall d :: d in declared ==> d.name != ID_INDEX
  }

  /** A remaining index has a declaration's name exactly when it has its key. */
  ghost predicate NamesAgree(declared: seq<Declared>, left: seq<Stored>) {
    forall d, s :: d in declared && s in left ==> (s.name == d.name <==> s.key == d.key)
  }

  lemma {:induction false} SameStored(stored: seq<Stored>, s: Stored, t: Stored)
    requires WellStored(stored) && s in stored && t in stored && (s.name == t.name || s.key == t.key)
    ensures s == t
  {
    var i :| 0 <= i < |stored| && stored[i] == s;
    var j :| 0 <= j < |stored| && stored[j] == t;
  }

  lemma {:induction false} SameDeclared(declared: seq<Declared>, d: Declared, e: Declared)
    requires WellDeclared(declared) && d in declared && e in declared && (d.name == e.name || d.key == e.key)
    ensures d == e
  {
    var i :| 0 <= i < |declared| && declared[i] == d;
    var j :| 0 <= j < |declared| && declared[j] == e;
  }

  lemma {:induction false} KeyOfStored(stored: seq<Stored>, s: Stored)
    requires WellStored(stored) && s in stored
    ensures KeyOf(stored, s.name) == Some(s.key)
  {
    hide KeyOf;
    var t :| t in stored && t.name == s.name && t.key == KeyOf(stored, s.name).value;
    SameStored(stored, s, t);
  }

  /** Whatever still holds a declared key after the drops also has the declared options. */
  lemma {:induction false} LeftoversMatch(m: Model, stored: seq<Stored>, prune: bool, s: Stored, d: Declared)
    requires WellStored(stored) && WellDeclared(m.declared)
    requires d in m.declared && s in Left(m, stored, prune) && s.name != ID_INDEX && s.key == d.key
    ensures Matches(d, s)
  {
    hide ToDrop, ToCreate, SortDrops, KeyOf, Filter;
    if !Matches(d, s) {
      UnmatchedIsPaired(m, stored, s, d);
    }
  }

  /** An index whose options changed is paired with its own declaration and replaced. */
  lemma {:induction false} UnmatchedIsPaired(m: Model, stored: seq<Stored>, s: Stored, d: Declared)
    requires WellStored(stored) && WellDeclared(m.declared)
    requires d in m.declared && s in stored && s.name != ID_INDEX && s.key == d.key && !Matches(d, s)
    ensures s.name in ReplacedNames(SortAll(m, stored).replaced)
  {
    hide ToDrop, ToCreate, SortDrops, KeyOf;
    var toDrop, toCreate := ToDrop(m.declared, stored), ToCreate(m.declared, stored);
    forall e | e in m.declared ensures !Matches(e, s) {
      if e.key == s.key {
        SameDeclared(m.declared, d, e);
      }
    }
    assert s.name in toDrop;
    forall t | t in stored && t.name != ID_INDEX ensures !Matches(d, t) {
      if t.key == d.key {
        SameStored(stored, s, t);
      }
    }
    assert d.key in toCreate;
    var r := SortDrops(toDrop, toCreate, stored, m.retired);
    NamesConserved(toDrop, toCreate, stored, m.retired);
    KeysConserved(toDrop, toCreate, stored, m.retired);
    PairingIsMaximal(toDrop, toCreate, stored, m.retired);
    KeyOfStored(stored, s);
    if d.key in r.created {
      assert s.name !in r.retired + r.rest;
      assert s.name in multiset(toDrop);
      assert s.name in ReplacedNames(r.replaced);
    } else {
      assert d.key in multiset(toCreate);
      assert d.key in ReplacedKeys(r.replaced);
      var i :| 0 <= i < |r.replaced| && ReplacedKeys(r.replaced)[i] == d.key;
      var x := r.replaced[i];
      assert x in r.replaced && ReplacedNames(r.replaced)[i] == x.name;
      var t :| t in stored && t.name == x.name && t.key == d.key;
      SameStored(stored, s, t);
    }
  }

  // ---------------------------------------------------------------- createIndexes after the drops

  /** The stored form of a declaration. */
  function AsStored(d: Declared): Stored {
    Stored(d.name, d.key, d.options)
  }

  /** Part-way through `createIndexes`: what was left, plus some of the first i declarations. */
  ghost predicate Building(declared: seq<Declared>, left: seq<Stored>, current: seq<Stored>, i: nat)
    requires i <= |declared|
  {
    && (forall s :: s in left ==> s in current)
    && (forall s :: s in current ==> s in left || exists j :: 0 <= j < i && s == AsStored(declared[j]))
    && (forall j :: 0 <= j < i ==> AsStored(declared[j]) in current)
  }

  /** A declaration can be built: nothing else holds its name or key, and the rows allow it. */
  ghost predicate Buildable(d: Declared, left: seq<Stored>, rows: seq<Row>) {
    !Clashes(d, left) && (AsStored(d) in left || !Violated(rows, d))
  }

  lemma {:induction false} CreateNext(declared: seq<Declared>, left: seq<Stored>, current: seq<Stored>, rows: seq<Row>, i: nat)
    requires WellDeclared(declared) && i < |declared| && Building(declared, left, current, i)
    ensures CreateOne(declared[i], current, rows).Some? <==> Buildable(declared[i], left, rows)
    ensures CreateOne(declared[i], current, rows).Some? ==>
            Building(declared, left, CreateOne(declared[i], current, rows).value, i + 1)
  {
    hide Violated;
    var d := declared[i];
    forall s | s in current && s !in left ensures !SameIndex(d, s) && s.key != d.key && s.name != d.name {
    }
    assert Clashes(d, current) <==> Clashes(d, left);
    assert forall s :: SameIndex(d, s) <==> s == AsStored(d);
  }

  /** `createIndexes` succeeds exactly when every declaration can be built; then all are stored and nothing is lost. */
  lemma {:induction false} CreateAllExact(declared: seq<Declared>, left: seq<Stored>, current: seq<Stored>, rows: seq<Row>, i: nat)
    requires WellDeclared(declared) && i <= |declared| && Building(declared, left, current, i)
    ensures var r := CreateAll(declared[i..], current, rows);
            && (r.Some? <==> forall j :: i <= j < |declared| ==> Buildable(declared[j], left, rows))
            && (r.Some? ==> Building(declared, left, r.value, |declared|))
    decreases |declared| - i
  {
    hide Buildable, CreateOne, Building, WellDeclared;
    if i < |declared| {
      CreateNext(declared, left, current, rows, i);
      assert declared[i..][1..] == declared[i + 1..];
      if CreateOne(declared[i], current, rows).Some? {
        CreateAllExact(declared, left, CreateOne(declared[i], current, rows).value, rows, i + 1);
      }
    }
  }

  /** A declaration no stored index matches. */
  predicate Pending(m: Model, stored: seq<Stored>, d: Declared) {
    d in m.declared && Missing(d, stored)
  }

  lemma {:induction false} StoredOrPending(m: Model, stored: seq<Stored>, prune: bool, d: Declared)
    requires WellStored(stored) && WellDeclared(m.declared) && NamesAgree(m.declared, Left(m, stored, prune))
    requires d in m.declared
    ensures AsStored(d) in Left(m, stored, prune) <==> !Pending(m, stored, d)
    ensures !Clashes(d, Left(m, stored, prune))
  {
    hide ToDrop, ToCreate, SortDrops, KeyOf, Filter;
    var left := Left(m, stored, prune);
    forall s | s in left && (s.key == d.key || s.name == d.name) ensures SameIndex(d, s) {
      LeftoversMatch(m, stored, prune, s, d);
    }
    if !Missing(d, stored) {
      var s :| s in stored && s.name != ID_INDEX && Matches(d, s);
      MatchedIsLeft(m, stored, prune, s, d);
    }
  }

  /** An index some declaration matches is never dropped. */
  lemma {:induction false} MatchedIsLeft(m: Model, stored: seq<Stored>, prune: bool, s: Stored, d: Declared)
    requires WellStored(stored) && d in m.declared && s in stored && s.name != ID_INDEX && Matches(d, s)
    ensures s in Left(m, stored, prune)
  {
    hide ToDrop, ToCreate, SortDrops, KeyOf, Filter;
    var toDrop, toCreate := ToDrop(m.declared, stored), ToCreate(m.declared, stored);
    if s.name in toDrop {
      var t :| t in stored && Undeclared(m.declared, t) && t.name == s.name;
      SameStored(stored, s, t);
    }
    DropsWereUndeclared(m, stored, prune, s.name);
  }

  lemma {:induction false} DropsWereUndeclared(m: Model, stored: seq<Stored>, prune: bool, name: string)
    ensures name in DropsOf(DiffOf(m, stored, prune)) ==> name in ToDrop(m.declared, stored)
  {
    hide ToDrop, ToCreate, SortDrops, KeyOf;
    var toDrop, toCreate := ToDrop(m.declared, stored), ToCreate(m.declared, stored);
    var r := SortDrops(toDrop, toCreate, stored, m.retired);
    PairingIsMaximal(toDrop, toCreate, stored, m.retired);
    if name in ReplacedNames(r.replaced) {
      var i :| 0 <= i < |r.replaced| && ReplacedNames(r.replaced)[i] == name;
      assert r.replaced[i] in r.replaced;
    }
  }

  // ---------------------------------------------------------------- the pre-flight

  /** Every field of the key is there and not null. */
  predicate IsComplete(row: Row, key: Key) {
    forall i :: 0 <= i < |key| ==> CellOf(row, key[i].field) != Null
  }

  /** What the pre-flight scan reports for a key: two complete documents on one entry. */
  predicate HasDuplicates(rows: seq<Row>, key: Key) {
    exists i, j :: 0 <= i < j < |rows| && IsComplete(rows[i], key) && IsComplete(rows[j], key) && SameEntry(rows[i], rows[j], key)
  }

  /**
   * What the scan does not look for: a partial index, and documents with an entry in the index that
   * lack one of the fields or have a null there.
   */
  predicate HiddenViolation(rows: seq<Row>, d: Declared) {
    && d.options.unique
    && exists i, j :: 0 <= i < j < |rows| && SameEntry(rows[i], rows[j], d.key) && Covers(d, rows[i]) && Covers(d, rows[j])
         && (d.options.coverage.Partial? || !IsComplete(rows[i], d.key))
  }

  predicate IsScanned(d: Declared) {
    d.options.unique && !d.options.coverage.Partial?
  }

  /** A unique index cannot be built exactly when the scan finds duplicates or the rows hide a violation from it. */
  lemma {:induction false} ScanAndBlindSpots(rows: seq<Row>, d: Declared)
    ensures Violated(rows, d) <==> (IsScanned(d) && HasDuplicates(rows, d.key)) || HiddenViolation(rows, d)
  {
    hide CellOf, Covers;
    forall i, j | 0 <= i < |rows| && 0 <= j < |rows| && SameEntry(rows[i], rows[j], d.key)
      ensures IsComplete(rows[i], d.key) <==> IsComplete(rows[j], d.key)
    {
    }
    forall i | 0 <= i < |rows| && IsComplete(rows[i], d.key) && IsScanned(d) ensures Covers(d, rows[i]) {
      CompleteIsCovered(rows[i], d);
    }
  }

  /** A unique partial index only minds documents under its filter. */
  lemma {:induction false} PartialMindsOnlyItsRows(rows: seq<Row>, d: Declared)
    requires d.options.unique && d.options.coverage.Partial?
    ensures Violated(rows, d) <==>
            exists i, j :: 0 <= i < j < |rows| && SameEntry(rows[i], rows[j], d.key)
              && d.options.coverage.filter in rows[i].filters && d.options.coverage.filter in rows[j].filters
  {
    hide SameEntry;
  }

  /** Every index without a filter has an entry for a document that has all its fields. */
  lemma {:induction false} CompleteIsCovered(row: Row, d: Declared)
    requires IsComplete(row, d.key) && !d.options.coverage.Partial?
    ensures Covers(d, row)
  {
    assert CellOf(row, d.key[0].field) != Null;
  }

  // ---------------------------------------------------------------- main results on one collection

  /** The scan over the keys a plan will build is silent. */
  ghost predicate ScanIsClean(m: Model, stored: seq<Stored>, rows: seq<Row>) {
    forall d :: Pending(m, stored, d) && IsScanned(d) ==> !HasDuplicates(rows, d.key)
  }

  lemma {:induction false} NoChangesMeansNothingPending(m: Model, stored: seq<Stored>, prune: bool)
    requires !HasChanges(DiffOf(m, stored, prune))
    ensures forall d :: !Pending(m, stored, d)
    ensures Left(m, stored, prune) == stored
  {
    hide ToDrop, ToCreate, SortDrops, KeyOf;
    var toDrop, toCreate := ToDrop(m.declared, stored), ToCreate(m.declared, stored);
    assert forall d :: Pending(m, stored, d) ==> d.key in toCreate;
    KeysConserved(toDrop, toCreate, stored, m.retired);
    assert |toCreate| == |multiset(toCreate)| == 0;
    FilterAll(stored, (s: Stored) => s.name !in DropsOf(DiffOf(m, stored, prune)));
  }

  /**
   * After a clean scan a sync goes through exactly when names agree with keys among the indexes it
   * leaves, and no pending unique index meets rows the scan does not look at.
   */
  lemma {:induction false} SyncExact(m: Model, stored: seq<Stored>, rows: seq<Row>, prune: bool)
    requires WellStored(stored) && WellDeclared(m.declared) && ScanIsClean(m, stored, rows)
    requires HasChanges(DiffOf(m, stored, prune))
    ensures SyncOne(m, stored, rows, prune).Some? <==>
            && NamesAgree(m.declared, Left(m, stored, prune))
            && forall d :: Pending(m, stored, d) ==> !HiddenViolation(rows, d)
  {
    hide Left, HiddenViolation, HasDuplicates, Violated, Missing, HasChanges, Clashes, DiffOf;
    var left := Left(m, stored, prune);
    assert m.declared[0..] == m.declared;
    CreateAllExact(m.declared, left, left, rows, 0);
    if NamesAgree(m.declared, left) {
      forall d | d in m.declared ensures Buildable(d, left, rows) <==> !(Pending(m, stored, d) && HiddenViolation(rows, d)) {
        StoredOrPending(m, stored, prune, d);
        ScanAndBlindSpots(rows, d);
      }
      AllBuildable(m.declared, left, rows);
    } else {
      DisagreementClashes(m.declared, left, rows);
    }
  }

  lemma {:induction false} AllBuildable(declared: seq<Declared>, left: seq<Stored>, rows: seq<Row>)
    ensures (forall j :: 0 <= j < |declared| ==> Buildable(declared[j], left, rows)) <==>
            (forall d :: d in declared ==> Buildable(d, left, rows))
  {
    hide Buildable;
    forall d | d in declared && forall j :: 0 <= j < |declared| ==> Buildable(declared[j], left, rows)
      ensures Buildable(d, left, rows)
    {
      var j :| 0 <= j < |declared| && declared[j] == d;
    }
  }

  lemma {:induction false} DisagreementClashes(declared: seq<Declared>, left: seq<Stored>, rows: seq<Row>)
    requires !NamesAgree(declared, left)
    ensures exists j :: 0 <= j < |declared| && !Buildable(declared[j], left, rows)
  {
    hide Violated;
    var d, s :| d in declared && s in left && !(s.name == d.name <==> s.key == d.key);
    var j :| 0 <= j < |declared| && declared[j] == d;
    assert !SameIndex(d, s);
    assert Clashes(d, left);
  }

  /** A sync that goes through stores every declaration, keeps all it left, and adds nothing else. */
  lemma {:induction false} SyncedStoresAll(m: Model, stored: seq<Stored>, rows: seq<Row>, prune: bool)
    requires WellStored(stored) && WellDeclared(m.declared)
    requires SyncOne(m, stored, rows, prune).Some? && NamesAgree(m.declared, Left(m, stored, prune))
    ensures var now := SyncOne(m, stored, rows, prune).value;
            && (forall d :: d in m.declared ==> AsStored(d) in now)
            && (forall s :: s in Left(m, stored, prune) ==> s in now)
            && (forall s :: s in now ==> s in Left(m, stored, prune) || exists d :: d in m.declared && s == AsStored(d))
  {
    hide Left, HasChanges, Violated, Missing, Clashes, DiffOf, WellDeclared;
    var left := Left(m, stored, prune);
    if HasChanges(DiffOf(m, stored, prune)) {
      assert m.declared[0..] == m.declared;
      CreateAllExact(m.declared, left, left, rows, 0);
      var now := SyncOne(m, stored, rows, prune).value;
      forall d | d in m.declared ensures AsStored(d) in now {
        var j :| 0 <= j < |m.declared| && m.declared[j] == d;
      }
    } else {
      NoChangesMeansNothingPending(m, stored, prune);
      forall d | d in m.declared ensures AsStored(d) in stored {
        StoredOrPending(m, stored, prune, d);
      }
    }
  }

  lemma {:induction false} NothingToCreate(declared: seq<Declared>, stored: seq<Stored>)
    requires forall d :: d in declared ==> AsStored(d) in stored && d.name != ID_INDEX
    ensures ToCreate(declared, stored) == []
  {
    forall d | d in declared ensures !Missing(d, stored) {
      assert Matches(d, AsStored(d));
    }
    if ToCreate(declared, stored) != [] {
      HasElement(ToCreate(declared, stored));
    }
  }

  lemma {:induction false} OnlyRest(toDrop: seq<string>, stored: seq<Stored>, retired: seq<string>)
    requires forall name :: name in toDrop ==> name !in retired
    ensures SortDrops(toDrop, [], stored, retired) == Sorted([], [], [], toDrop)
  {
    if toDrop != [] {
      OnlyRest(toDrop[1..], stored, retired);
      assert [toDrop[0]] + toDrop[1..] == toDrop;
    }
  }

  /** Syncing a synced collection finds nothing to do: only indexes it chose to keep remain to report. */
  lemma {:induction false} SyncConverges(m: Model, stored: seq<Stored>, rows: seq<Row>, prune: bool)
    requires WellStored(stored) && WellDeclared(m.declared)
    requires SyncOne(m, stored, rows, prune).Some? && NamesAgree(m.declared, Left(m, stored, prune))
    ensures var now := SyncOne(m, stored, rows, prune).value;
            && !HasChanges(DiffOf(m, now, prune))
            && (prune ==> DiffOf(m, now, prune).kept == [])
  {
    hide ToDrop, ToCreate, SortDrops, KeyOf, SyncOne, Left, Undeclared, HasChanges;
    var now := SyncOne(m, stored, rows, prune).value;
    SyncedStoresAll(m, stored, rows, prune);
    NothingToCreate(m.declared, now);
    forall name | name in ToDrop(m.declared, now) ensures !prune && name !in m.retired {
      var s :| s in now && Undeclared(m.declared, s) && s.name == name;
      OnlyKeptStaysUndeclared(m, stored, prune, now, s);
    }
    OnlyRest(ToDrop(m.declared, now), now, m.retired);
    if prune && ToDrop(m.declared, now) != [] {
      HasElement(ToDrop(m.declared, now));
    }
    SortedHasNoChanges(m, now, prune);
  }

  lemma {:induction false} SortedHasNoChanges(m: Model, now: seq<Stored>, prune: bool)
    requires SortAll(m, now).created == [] && SortAll(m, now).replaced == [] && SortAll(m, now).retired == []
    requires prune ==> SortAll(m, now).rest == []
    ensures !HasChanges(DiffOf(m, now, prune)) && (prune ==> DiffOf(m, now, prune).kept == [])
  {
    hide SortAll;
  }

  /** An index still undeclared after a sync was kept by it, so nobody retired it and nothing pruned it. */
  lemma {:induction false} OnlyKeptStaysUndeclared(m: Model, stored: seq<Stored>, prune: bool, now: seq<Stored>, s: Stored)
    requires WellStored(stored) && WellDeclared(m.declared)
    requires s in now && Undeclared(m.declared, s)
    requires forall t :: t in now ==> t in Left(m, stored, prune) || exists d :: d in m.declared && t == AsStored(d)
    ensures !prune && s.name !in m.retired
  {
    hide ToDrop, ToCreate, SortDrops, KeyOf, Filter;
    forall d | d in m.declared ensures s != AsStored(d) {
      assert Matches(d, AsStored(d));
    }
    var toDrop, toCreate := ToDrop(m.declared, stored), ToCreate(m.declared, stored);
    assert s.name in toDrop;
    var r := SortDrops(toDrop, toCreate, stored, m.retired);
    NamesConserved(toDrop, toCreate, stored, m.retired);
    PairingIsMaximal(toDrop, toCreate, stored, m.retired);
    assert s.name in multiset(toDrop);
    assert s.name in r.rest;
  }

  // ---------------------------------------------------------------- what a sync drops

  lemma {:induction false} PrimaryKeyIsLeft(m: Model, stored: seq<Stored>, prune: bool, s: Stored)
    requires WellStored(stored) && s in stored && s.name == "_id_"
    ensures s in Left(m, stored, prune)
  {
    hide ToDrop, ToCreate, SortDrops, KeyOf, Filter;
    DropsWereUndeclared(m, stored, prune, s.name);
    forall t | t in stored && Undeclared(m.declared, t) ensures t.name != "_id_" {
    }
  }

  /** An index whose key nobody declares is retired by name, or left over. */
  lemma {:induction false} UnwantedIsSorted(m: Model, stored: seq<Stored>, s: Stored)
    requires WellStored(stored) && s in stored && s.name != "_id_" && forall d :: d in m.declared ==> d.key != s.key
    ensures var r := SortAll(m, stored);
            && s.name !in ReplacedNames(r.replaced)
            && (s.name in r.retired <==> s.name in m.retired) && (s.name in r.rest <==> s.name !in m.retired)
  {
    hide ToDrop, ToCreate, SortDrops, KeyOf;
    var toDrop, toCreate := ToDrop(m.declared, stored), ToCreate(m.declared, stored);
    var r := SortDrops(toDrop, toCreate, stored, m.retired);
    PairingIsMaximal(toDrop, toCreate, stored, m.retired);
    NamesConserved(toDrop, toCreate, stored, m.retired);
    KeyOfStored(stored, s);
    assert Undeclared(m.declared, s);
    assert s.name in toDrop;
    assert s.name in multiset(toDrop);
    forall i | 0 <= i < |r.replaced| ensures ReplacedNames(r.replaced)[i] != s.name {
      assert r.replaced[i] in r.replaced && r.replaced[i].key in toCreate;
    }
  }

  /**
   * What a sync leaves of the stored indexes: the primary key's own, those some declaration matches in
   * key and options, and, unless it prunes, those whose key nobody declares and whose name is not retired.
   */
  lemma {:induction false} LeftExactly(m: Model, stored: seq<Stored>, prune: bool, s: Stored)
    requires WellStored(stored) && WellDeclared(m.declared) && s in stored
    ensures s in Left(m, stored, prune) <==>
            || s.name == "_id_"
            || (exists d :: d in m.declared && d.key == s.key && d.options == s.options)
            || (!prune && s.name !in m.retired && forall d :: d in m.declared ==> d.key != s.key)
  {
    hide SortAll;
    if s.name == "_id_" {
      PrimaryKeyIsLeft(m, stored, prune, s);
    } else if d :| d in m.declared && d.key == s.key {
      if Matches(d, s) {
        MatchedIsLeft(m, stored, prune, s, d);
      } else {
        UnmatchedIsPaired(m, stored, s, d);
        forall e | e in m.declared && e.key == s.key ensures e == d {
          SameDeclared(m.declared, d, e);
        }
      }
    } else {
      UnwantedIsSorted(m, stored, s);
    }
  }

  /** The plan lists a collection exactly when it would create, rebuild, drop or keep something there. */
  lemma {:induction false} ListedExactly(models: seq<Model>, indexes: map<string, seq<Stored>>, prune: bool, diff: IndexDiff)
    ensures diff in PlanOf(models, indexes, prune) <==>
            && (exists m :: m in models && diff == DiffOf(m, IndexesOf(indexes, m.collection), prune))
            && (diff.toCreate != [] || diff.toReplace != [] || diff.toDropRetired != [] || diff.toDropUndeclared != []
                || diff.kept != [])
  {
    hide PlanOf, DiffOf, IndexesOf;
    PlanListsModels(models, indexes, prune, diff);
  }

  // ---------------------------------------------------------------- releases that alternate

  /** A release drops an index of its own accord: it retired the name, or redeclares the key with other options. */
  ghost predicate Disowns(m: Model, s: Stored) {
    s.name in m.retired || exists d :: d in m.declared && d.key == s.key && d.options != s.options
  }

  /** A release syncing one collection, and the documents it finds there. */
  datatype Release = Release(model: Model, rows: seq<Row>)

  /** One collection after a run of non-pruning syncs; a refused build leaves the drops done. */
  function SyncRun(releases: seq<Release>, stored: seq<Stored>): seq<Stored> {
    if releases == [] then stored
    else SyncRun(releases[1..], AfterOne(releases[0].model, stored, releases[0].rows))
  }

  function AfterOne(m: Model, stored: seq<Stored>, rows: seq<Row>): seq<Stored> {
    if !HasChanges(DiffOf(m, stored, false)) then stored
    else CreateSome(m.declared, Left(m, stored, false), rows)
  }

  /** One sync of a run is the sync of one collection, and half of it where a build is refused. */
  lemma {:induction false} AfterOneIsTheSync(m: Model, stored: seq<Stored>, rows: seq<Row>)
    ensures SyncOne(m, stored, rows, false).Some? ==> AfterOne(m, stored, rows) == SyncOne(m, stored, rows, false).value
    ensures SyncOne(m, stored, rows, false).None? ==>
              AfterOne(m, stored, rows) == CreateSome(m.declared, Left(m, stored, false), rows)
  {
    hide HasChanges, DiffOf, Left, CreateAll, CreateSome;
  }

  /** What `createIndexes` leaves: every declaration tried in turn, the refused ones passed over. */
  function CreateSome(declared: seq<Declared>, stored: seq<Stored>, rows: seq<Row>): (r: seq<Stored>)
    ensures stored <= r
    ensures CreateAll(declared, stored, rows).Some? ==> CreateAll(declared, stored, rows) == Some(r)
    ensures forall s :: s in r ==> s in stored || exists d :: d in declared && s == AsStored(d)
  {
    if declared == [] then stored
    else
      var d, made := declared[0], CreateOne(declared[0], stored, rows);
      var next := if made.Some? then made.value else stored;
      assert next == stored || next == stored + [AsStored(d)];
      assert forall e :: e in declared <==> e == d || e in declared[1..];
      CreateSome(declared[1..], next, rows)
  }

  /** Part-way through `createIndexes`, refusals passed over: what was left, plus those of the first i that can be built. */
  ghost predicate HalfBuilt(declared: seq<Declared>, left: seq<Stored>, current: seq<Stored>, rows: seq<Row>, i: nat)
    requires i <= |declared|
  {
    forall s :: s in current <==> s in left || IsBuiltOf(declared, left, rows, i, s)
  }

  ghost predicate IsBuiltOf(declared: seq<Declared>, left: seq<Stored>, rows: seq<Row>, i: nat, s: Stored)
    requires i <= |declared|
  {
    exists j :: 0 <= j < i && s == AsStored(declared[j]) && Buildable(declared[j], left, rows)
  }

  lemma {:induction false} OneMoreBuilt(declared: seq<Declared>, left: seq<Stored>, rows: seq<Row>, i: nat, s: Stored)
    requires i < |declared|
    ensures IsBuiltOf(declared, left, rows, i + 1, s) <==>
            IsBuiltOf(declared, left, rows, i, s) || (s == AsStored(declared[i]) && Buildable(declared[i], left, rows))
  {
    hide Buildable, AsStored;
  }

  lemma {:induction false} HalfNext(declared: seq<Declared>, left: seq<Stored>, current: seq<Stored>, rows: seq<Row>, i: nat)
    requires WellDeclared(declared) && i < |declared| && HalfBuilt(declared, left, current, rows, i)
    ensures var made := CreateOne(declared[i], current, rows);
            HalfBuilt(declared, left, if made.Some? then made.value else current, rows, i + 1)
  {
    hide Violated;
    var d := declared[i];
    forall s | s in current && s !in left ensures !SameIndex(d, s) && s.key != d.key && s.name != d.name {
    }
    assert Clashes(d, current) <==> Clashes(d, left);
    assert forall s :: SameIndex(d, s) <==> s == AsStored(d);
    hide Buildable, IsBuiltOf;
    forall s {
      OneMoreBuilt(declared, left, rows, i, s);
    }
  }

  /** A refused build leaves what the drops left and exactly the declarations that can be built over it. */
  lemma {:induction false} CreateSomeExact(declared: seq<Declared>, left: seq<Stored>, current: seq<Stored>, rows: seq<Row>, i: nat)
    requires WellDeclared(declared) && i <= |declared| && HalfBuilt(declared, left, current, rows, i)
    ensures HalfBuilt(declared, left, CreateSome(declared[i..], current, rows), rows, |declared|)
    decreases |declared| - i
  {
    hide CreateOne, HalfBuilt, WellDeclared;
    if i < |declared| {
      HalfNext(declared, left, current, rows, i);
      assert declared[i..][1..] == declared[i + 1..];
      var made := CreateOne(declared[i], current, rows);
      CreateSomeExact(declared, left, if made.Some? then made.value else current, rows, i + 1);
    }
  }

  lemma {:induction false} DroppedWasDisowned(m: Model, stored: seq<Stored>, s: Stored)
    requires WellStored(stored) && s in stored && s !in Left(m, stored, false)
    ensures Disowns(m, s)
  {
    hide ToDrop, ToCreate, SortDrops, KeyOf, Filter;
    var toDrop, toCreate := ToDrop(m.declared, stored), ToCreate(m.declared, stored);
    var r := SortDrops(toDrop, toCreate, stored, m.retired);
    PairingIsMaximal(toDrop, toCreate, stored, m.retired);
    assert s.name in ReplacedNames(r.replaced) + r.retired;
    if s.name in ReplacedNames(r.replaced) {
      var i :| 0 <= i < |r.replaced| && ReplacedNames(r.replaced)[i] == s.name;
      var x := r.replaced[i];
      assert x in r.replaced;
      KeyOfStored(stored, s);
      var d :| d in m.declared && Missing(d, stored) && d.key == s.key;
      var t :| t in stored && Undeclared(m.declared, t) && t.name == s.name;
      SameStored(stored, s, t);
      assert !Matches(d, s);
    }
  }

  lemma {:induction false} CreatingKeepsWell(declared: seq<Declared>, stored: seq<Stored>, rows: seq<Row>)
    requires WellStored(stored)
    ensures WellStored(CreateSome(declared, stored, rows))
  {
    hide CreateOne, WellStored;
    if declared != [] {
      CreatingOneKeepsWell(declared[0], stored, rows);
      var made := CreateOne(declared[0], stored, rows);
      CreatingKeepsWell(declared[1..], if made.Some? then made.value else stored, rows);
    }
  }

  lemma {:induction false} CreatingOneKeepsWell(d: Declared, stored: seq<Stored>, rows: seq<Row>)
    requires WellStored(stored)
    ensures CreateOne(d, stored, rows).Some? ==> WellStored(CreateOne(d, stored, rows).value)
  {
    hide Violated;
    if !Clashes(d, stored) && !(exists s :: s in stored && SameIndex(d, s)) {
      forall i | 0 <= i < |stored| ensures stored[i].name != d.name && stored[i].key != d.key {
        assert stored[i] in stored;
      }
    }
  }

  lemma {:induction false} DroppingKeepsWell(stored: seq<Stored>, names: seq<string>)
    requires WellStored(stored)
    ensures WellStored(AfterDrops(stored, names))
  {
    FilterKeepsWell(stored, (s: Stored) => s.name !in names);
  }

  lemma {:induction false} FilterKeepsWell(stored: seq<Stored>, keep: Stored -> bool)
    requires WellStored(stored)
    ensures WellStored(Filter(stored, keep))
  {
    if stored != [] {
      FilterKeepsWell(stored[1..], keep);
      var rest := Filter(stored[1..], keep);
      forall i | 0 <= i < |rest| ensures rest[i].name != stored[0].name && rest[i].key != stored[0].key {
        assert rest[i] in stored[1..];
      }
    }
  }

  lemma {:induction false} AfterOneKeepsWell(m: Model, stored: seq<Stored>, rows: seq<Row>)
    requires WellStored(stored)
    ensures WellStored(AfterOne(m, stored, rows))
  {
    hide DiffOf, WellStored, CreateSome, AfterDrops, HasChanges;
    DroppingKeepsWell(stored, DropsOf(DiffOf(m, stored, false)));
    CreatingKeepsWell(m.declared, Left(m, stored, false), rows);
  }

  /**
   * Old and new releases may take turns, over documents that change between the syncs: an index only
   * ever disappears at a sync by a release that retired its name or redeclares its key with other options.
   */
  lemma {:induction false} OnlyDisownersDrop(releases: seq<Release>, stored: seq<Stored>, s: Stored)
    requires WellStored(stored) && s in stored && s !in SyncRun(releases, stored)
    ensures exists r :: r in releases && Disowns(r.model, s)
  {
    hide Disowns, DiffOf, HasChanges, CreateSome, Left;
    var first := releases[0];
    var next := AfterOne(first.model, stored, first.rows);
    assert first in releases;
    if s in next {
      AfterOneKeepsWell(first.model, stored, first.rows);
      OnlyDisownersDrop(releases[1..], next, s);
    } else {
      DroppedWasDisowned(first.model, stored, s);
    }
  }

  // ---------------------------------------------------------------- the whole database

  datatype SyncResult =
    | NoModels
    | Blocked(keys: seq<(string, Key)>)
    | BuildFailed(collection: string)
    | Applied(plan: seq<IndexDiff>)

  function IndexesOf(indexes: map<string, seq<Stored>>, collection: string): seq<Stored> {
    if collection in indexes then indexes[collection] else []
  }

  function RowsOf(rows: map<string, seq<Row>>, collection: string): seq<Row> {
    if collection in rows then rows[collection] else []
  }

  predicate IsListed(diff: IndexDiff) {
    HasChanges(diff) || diff.kept != []
  }

  /** One entry per collection that would change or holds an undeclared index. */
  function PlanOf(models: seq<Model>, indexes: map<string, seq<Stored>>, prune: bool): seq<IndexDiff> {
    if models == [] then []
    else
      var diff := DiffOf(models[0], IndexesOf(indexes, models[0].collection), prune);
      (if IsListed(diff) then [diff] else []) + PlanOf(models[1..], indexes, prune)
  }

  /** A key the plan would build on a collection. */
  predicate WouldBuild(plan: seq<IndexDiff>, collection: string, key: Key) {
    exists diff :: diff in plan && diff.collection == collection && (key in diff.toCreate || key in ReplacedKeys(diff.toReplace))
  }

  predicate IsBlocking(m: Model, d: Declared, plan: seq<IndexDiff>, rows: seq<Row>) {
    IsScanned(d) && WouldBuild(plan, m.collection, d.key) && HasDuplicates(rows, d.key)
  }

  lemma {:induction false} PlanStep(models: seq<Model>, i: nat, indexes: map<string, seq<Stored>>, prune: bool)
    requires i < |models|
    ensures var diff := DiffOf(models[i], IndexesOf(indexes, models[i].collection), prune);
            PlanOf(models[i..], indexes, prune) ==
              (if IsListed(diff) then [diff] else []) + PlanOf(models[i + 1..], indexes, prune)
  {
    hide DiffOf, IsListed;
    assert models[i..][1..] == models[i + 1..];
  }

  lemma {:induction false} PlanEnds(models: seq<Model>, indexes: map<string, seq<Stored>>, prune: bool)
    ensures PlanOf(models[|models|..], indexes, prune) == []
  {
  }

  ghost predicate OnePerCollection(models: seq<Model>) {
    forall i, j :: 0 <= i < j < |models| ==> models[i].collection != models[j].collection
  }

  lemma {:induction false} PlanListsModels(models: seq<Model>, indexes: map<string, seq<Stored>>, prune: bool, diff: IndexDiff)
    ensures diff in PlanOf(models, indexes, prune) <==>
            exists m :: m in models && diff == DiffOf(m, IndexesOf(indexes, m.collection), prune) && IsListed(diff)
  {
    hide DiffOf, IsListed, IndexesOf;
    if models != [] {
      PlanListsModels(models[1..], indexes, prune, diff);
      assert forall m :: m in models <==> m == models[0] || m in models[1..];
    }
  }

  lemma {:induction false} PlanIsPerCollection(models: seq<Model>, indexes: map<string, seq<Stored>>, prune: bool)
    requires OnePerCollection(models)
    ensures PerCollection(PlanOf(models, indexes, prune))
  {
    hide SortAll, HasChanges, IndexesOf, DiffOf, IsListed;
    if models != [] {
      var rest := PlanOf(models[1..], indexes, prune);
      PlanIsPerCollection(models[1..], indexes, prune);
      hide PlanOf;
      DiffNames(models[0], IndexesOf(indexes, models[0].collection), prune);
      forall other | other in rest ensures other.collection != models[0].collection {
        PlanListsModels(models[1..], indexes, prune, other);
        var m :| m in models[1..] && other == DiffOf(m, IndexesOf(indexes, m.collection), prune);
        DiffNames(m, IndexesOf(indexes, m.collection), prune);
        var k :| 0 <= k < |models[1..]| && models[1..][k] == m;
        assert models[k + 1] == m;
      }
      ConsPerCollection(DiffOf(models[0], IndexesOf(indexes, models[0].collection), prune), rest);
      PlanStep(models, 0, indexes, prune);
      assert models[0..] == models;
      assert [] + rest == rest;
    }
  }

  ghost predicate PerCollection(plan: seq<IndexDiff>) {
    forall i, j :: 0 <= i < j < |plan| ==> plan[i].collection != plan[j].collection
  }

  lemma {:induction false} ConsPerCollection(diff: IndexDiff, rest: seq<IndexDiff>)
    requires PerCollection(rest) && forall other :: other in rest ==> other.collection != diff.collection
    ensures PerCollection([diff] + rest)
  {
    var plan := [diff] + rest;
    forall i, j | 0 <= i < j < |plan| ensures plan[i].collection != plan[j].collection {
      assert rest[j - 1] in rest;
    }
  }

  lemma {:induction false} SameModel(models: seq<Model>, m: Model, n: Model)
    requires OnePerCollection(models) && m in models && n in models && m.collection == n.collection
    ensures m == n
  {
    var i :| 0 <= i < |models| && models[i] == m;
    var j :| 0 <= j < |models| && models[j] == n;
  }

  /** The model registered for a collection. */
  function ModelOf(models: seq<Model>, collection: string): (r: Option<Model>)
    ensures r.Some? ==> r.value in models && r.value.collection == collection
    ensures r.None? ==> forall m :: m in models ==> m.collection != collection
  {
    if models == [] then None
    else
      var last := models[|models| - 1];
      assert forall m :: m in models <==> m == last || m in models[..|models| - 1];
      if last.collection == collection then Some(last) else ModelOf(models[..|models| - 1], collection)
  }

  /** One collection's outcome, from the database as it was. */
  function Synced(m: Model, indexes: map<string, seq<Stored>>, rows: map<string, seq<Row>>, prune: bool): Option<seq<Stored>> {
    SyncOne(m, IndexesOf(indexes, m.collection), RowsOf(rows, m.collection), prune)
  }

  /** A plan entry that changes this collection. */
  predicate Changes(plan: seq<IndexDiff>, collection: string) {
    exists diff :: diff in plan && diff.collection == collection && HasChanges(diff)
  }

  /** After the first entries of the plan: changed collections are synced, the others as they were. */
  ghost predicate PartlyApplied(models: seq<Model>, was: map<string, seq<Stored>>, now: map<string, seq<Stored>>,
                                rows: map<string, seq<Row>>, prune: bool, done: seq<IndexDiff>) {
    forall m :: m in models ==>
      if Changes(done, m.collection) then Some(IndexesOf(now, m.collection)) == Synced(m, was, rows, prune)
      else IndexesOf(now, m.collection) == IndexesOf(was, m.collection)
  }

  /** Collections nobody registered are as they were. */
  ghost predicate SparesOthers(models: seq<Model>, was: map<string, seq<Stored>>, now: map<string, seq<Stored>>) {
    forall c :: (forall m :: m in models ==> m.collection != c) ==> IndexesOf(now, c) == IndexesOf(was, c)
  }

  lemma {:induction false} StillSparesOthers(models: seq<Model>, was: map<string, seq<Stored>>, now: map<string, seq<Stored>>,
                                             m: Model, value: seq<Stored>)
    requires SparesOthers(models, was, now) && m in models
    ensures SparesOthers(models, was, now[m.collection := value])
  {
  }

  /** A collection with a refused build: its drops are done, and the other declarations are built. */
  function HalfSynced(m: Model, indexes: map<string, seq<Stored>>, rows: map<string, seq<Row>>, prune: bool): seq<Stored> {
    CreateSome(m.declared, Left(m, IndexesOf(indexes, m.collection), prune), RowsOf(rows, m.collection))
  }

  /** After a refused build: what the drops left, and exactly the declarations that can be built over it. */
  lemma {:induction false} HalfSyncedExact(m: Model, indexes: map<string, seq<Stored>>, rows: map<string, seq<Row>>, prune: bool,
                                           s: Stored)
    requires WellDeclared(m.declared)
    ensures var left := Left(m, IndexesOf(indexes, m.collection), prune);
            s in HalfSynced(m, indexes, rows, prune) <==>
              || s in left
              || exists d :: d in m.declared && s == AsStored(d) && Buildable(d, left, RowsOf(rows, m.collection))
  {
    hide Left, CreateSome, WellDeclared, IndexesOf, RowsOf, Buildable, AsStored;
    var left, found := Left(m, IndexesOf(indexes, m.collection), prune), RowsOf(rows, m.collection);
    assert m.declared[0..] == m.declared;
    CreateSomeExact(m.declared, left, left, found, 0);
    assert IsBuiltOf(m.declared, left, found, |m.declared|, s) <==>
           exists d :: d in m.declared && s == AsStored(d) && Buildable(d, left, found);
  }

  /** Stopped at the k-th model by a refused build: those before it are synced, those after it as they were. */
  ghost predicate StoppedAt(models: seq<Model>, was: map<string, seq<Stored>>, now: map<string, seq<Stored>>,
                            rows: map<string, seq<Row>>, prune: bool, k: nat) {
    && k < |models|
    && (forall j :: 0 <= j < k ==> Some(IndexesOf(now, models[j].collection)) == Synced(models[j], was, rows, prune))
    && Synced(models[k], was, rows, prune).None?
    && IndexesOf(now, models[k].collection) == HalfSynced(models[k], was, rows, prune)
    && (forall j :: k < j < |models| ==> IndexesOf(now, models[j].collection) == IndexesOf(was, models[j].collection))
  }

  /** The plan is in the order of the models: what comes before an entry is the plan of the models before its own. */
  lemma {:induction false} PlanInModelOrder(models: seq<Model>, indexes: map<string, seq<Stored>>, prune: bool, i: nat) returns (k: nat)
    requires i < |PlanOf(models, indexes, prune)|
    ensures k < |models| && PlanOf(models[..k], indexes, prune) == PlanOf(models, indexes, prune)[..i]
    ensures PlanOf(models, indexes, prune)[i] == DiffOf(models[k], IndexesOf(indexes, models[k].collection), prune)
  {
    hide DiffOf, IsListed, IndexesOf, PlanOf;
    PlanHead(models, indexes, prune);
    if i < |FirstEntry(models, indexes, prune)| {
      return 0;
    }
    var before := PlanInModelOrder(models[1..], indexes, prune, i - |FirstEntry(models, indexes, prune)|);
    k := before + 1;
    assert models[..k][1..] == models[1..][..before];
    PlanHead(models[..k], indexes, prune);
  }

  function FirstEntry(models: seq<Model>, indexes: map<string, seq<Stored>>, prune: bool): seq<IndexDiff>
    requires models != []
  {
    var diff := DiffOf(models[0], IndexesOf(indexes, models[0].collection), prune);
    if IsListed(diff) then [diff] else []
  }

  lemma {:induction false} PlanHead(models: seq<Model>, indexes: map<string, seq<Stored>>, prune: bool)
    ensures PlanOf(models[..0], indexes, prune) == []
    ensures models == [] ==> PlanOf(models, indexes, prune) == []
    ensures models != [] ==>
              PlanOf(models, indexes, prune) == FirstEntry(models, indexes, prune) + PlanOf(models[1..], indexes, prune)
  {
  }

  /** Stopping at an entry of the plan is stopping at its model. */
  lemma {:induction false} StoppedAtEntry(models: seq<Model>, was: map<string, seq<Stored>>, now: map<string, seq<Stored>>,
                                          rows: map<string, seq<Row>>, prune: bool, i: nat, k: nat)
    requires OnePerCollection(models) && k < |models| && i < |PlanOf(models, was, prune)|
    requires PlanOf(models[..k], was, prune) == PlanOf(models, was, prune)[..i]
    requires PartlyApplied(models, was, now, rows, prune, PlanOf(models, was, prune)[..i])
    requires Synced(models[k], was, rows, prune).None?
    ensures StoppedAt(models, was, now[models[k].collection := HalfSynced(models[k], was, rows, prune)], rows, prune, k)
  {
    hide PlanOf, Changes, Synced, HalfSynced;
    forall j | 0 <= j < k ensures Some(IndexesOf(now, models[j].collection)) == Synced(models[j], was, rows, prune) {
      assert models[j] in models;
      Planned(models, was, rows, prune, k, j);
    }
    forall j | k < j < |models| ensures IndexesOf(now, models[j].collection) == IndexesOf(was, models[j].collection) {
      assert models[j] in models;
      NotPlanned(models, was, prune, k, j);
    }
  }

  lemma {:induction false} Planned(models: seq<Model>, indexes: map<string, seq<Stored>>, rows: map<string, seq<Row>>,
                                   prune: bool, k: nat, j: nat)
    requires j < k <= |models|
    ensures var c := models[j].collection;
            Changes(PlanOf(models[..k], indexes, prune), c)
            || Synced(models[j], indexes, rows, prune) == Some(IndexesOf(indexes, c))
  {
    hide PlanOf, DiffOf, IndexesOf, CreateAll;
    var m := models[j];
    var diff := DiffOf(m, IndexesOf(indexes, m.collection), prune);
    assert m in models[..k];
    DiffNames(m, IndexesOf(indexes, m.collection), prune);
    PlanListsModels(models[..k], indexes, prune, diff);
  }

  lemma {:induction false} NotPlanned(models: seq<Model>, indexes: map<string, seq<Stored>>, prune: bool, k: nat, j: nat)
    requires OnePerCollection(models) && k <= j < |models|
    ensures !Changes(PlanOf(models[..k], indexes, prune), models[j].collection)
  {
    hide PlanOf, HasChanges, DiffOf, IsListed, IndexesOf;
    var plan := PlanOf(models[..k], indexes, prune);
    forall diff | diff in plan ensures diff.collection != models[j].collection {
      PlanListsModels(models[..k], indexes, prune, diff);
      var m :| m in models[..k] && diff == DiffOf(m, IndexesOf(indexes, m.collection), prune);
      DiffNames(m, IndexesOf(indexes, m.collection), prune);
    }
  }

  /** Where the entries handled so far leave a collection they do not name. */
  lemma {:induction false} NotYetChanged(plan: seq<IndexDiff>, i: nat)
    requires i < |plan| && PerCollection(plan)
    ensures !Changes(plan[..i], plan[i].collection)
    ensures forall c :: Changes(plan[..i + 1], c) <==>
              Changes(plan[..i], c) || (c == plan[i].collection && HasChanges(plan[i]))
  {
    hide HasChanges;
    assert plan[..i + 1] == plan[..i] + [plan[i]];
  }

  lemma {:induction false} AppliedOne(models: seq<Model>, was: map<string, seq<Stored>>, now: map<string, seq<Stored>>,
                                      rows: map<string, seq<Row>>, prune: bool, plan: seq<IndexDiff>, i: nat,
                                      m: Model, built: seq<Stored>)
    requires OnePerCollection(models) && i < |plan|
    requires PerCollection(plan)
    requires PartlyApplied(models, was, now, rows, prune, plan[..i])
    requires m in models && plan[i].collection == m.collection
    requires HasChanges(plan[i]) && Synced(m, was, rows, prune) == Some(built)
    ensures PartlyApplied(models, was, now[m.collection := built], rows, prune, plan[..i + 1])
  {
    hide Synced, HasChanges, Changes;
    NotYetChanged(plan, i);
    forall n | n in models && n.collection == m.collection ensures n == m {
      SameModel(models, m, n);
    }
  }

  lemma {:induction false} SkippedOne(models: seq<Model>, was: map<string, seq<Stored>>, now: map<string, seq<Stored>>,
                                      rows: map<string, seq<Row>>, prune: bool, plan: seq<IndexDiff>, i: nat)
    requires i < |plan| && !HasChanges(plan[i])
    requires PerCollection(plan)
    requires PartlyApplied(models, was, now, rows, prune, plan[..i])
    ensures PartlyApplied(models, was, now, rows, prune, plan[..i + 1])
  {
    hide Synced, HasChanges, Changes;
    NotYetChanged(plan, i);
  }

  /** A collection the whole plan does not change is already what a sync would leave. */
  lemma {:induction false} FullyApplied(models: seq<Model>, was: map<string, seq<Stored>>, now: map<string, seq<Stored>>,
                                        rows: map<string, seq<Row>>, prune: bool)
    requires PartlyApplied(models, was, now, rows, prune, PlanOf(models, was, prune))
    ensures forall m :: m in models ==> Some(IndexesOf(now, m.collection)) == Synced(m, was, rows, prune)
  {
    hide PlanOf, HasChanges, DiffOf, IndexesOf;
    forall m | m in models ensures Some(IndexesOf(now, m.collection)) == Synced(m, was, rows, prune) {
      var diff := DiffOf(m, IndexesOf(was, m.collection), prune);
      PlanListsModels(models, was, prune, diff);
      DiffNames(m, IndexesOf(was, m.collection), prune);
    }
  }

  lemma {:induction false} DiffNames(m: Model, stored: seq<Stored>, prune: bool)
    ensures DiffOf(m, stored, prune).collection == m.collection
  {
    hide SortAll;
  }

  /** An entry of the plan is some model's own diff. */
  lemma {:induction false} EntryOf(models: seq<Model>, indexes: map<string, seq<Stored>>, prune: bool, i: nat) returns (m: Model)
    requires OnePerCollection(models) && i < |PlanOf(models, indexes, prune)|
    ensures m in models && ModelOf(models, PlanOf(models, indexes, prune)[i].collection) == Some(m)
    ensures PlanOf(models, indexes, prune)[i] == DiffOf(m, IndexesOf(indexes, m.collection), prune)
  {
    hide PlanOf, DiffOf, IndexesOf, IsListed, ModelOf;
    var diff := PlanOf(models, indexes, prune)[i];
    assert diff in PlanOf(models, indexes, prune);
    PlanListsModels(models, indexes, prune, diff);
    m :| m in models && diff == DiffOf(m, IndexesOf(indexes, m.collection), prune);
    DiffNames(m, IndexesOf(indexes, m.collection), prune);
    var found := ModelOf(models, diff.collection);
    SameModel(models, m, found.value);
  }

  /** A declaration still to be built whose rows the scan finds in its way. */
  predicate IsHeldUp(m: Model, d: Declared, indexes: map<string, seq<Stored>>, rows: map<string, seq<Row>>) {
    && Pending(m, IndexesOf(indexes, m.collection), d)
    && IsScanned(d) && m.collection in rows && HasDuplicates(rows[m.collection], d.key)
  }

  lemma {:induction false} HeldUpExactly(m: Model, d: Declared, indexes: map<string, seq<Stored>>, rows: map<string, seq<Row>>)
    ensures IsHeldUp(m, d, indexes, rows) <==>
            && Pending(m, IndexesOf(indexes, m.collection), d)
            && IsScanned(d) && HasDuplicates(RowsOf(rows, m.collection), d.key)
  {
    hide IsScanned, Pending;
  }

  /** Which declarations block: those still to be built whose scan finds duplicates. */
  lemma {:induction false} BlockingExact(models: seq<Model>, indexes: map<string, seq<Stored>>, rows: seq<Row>, prune: bool,
                                         m: Model, d: Declared)
    requires OnePerCollection(models) && m in models && d in m.declared && WellDeclared(m.declared)
    ensures IsBlocking(m, d, PlanOf(models, indexes, prune), rows) <==>
            Pending(m, IndexesOf(indexes, m.collection), d) && IsScanned(d) && HasDuplicates(rows, d.key)
  {
    hide PlanOf, HasDuplicates, Missing, ToDrop, ToCreate, SortDrops, IndexesOf;
    var stored := IndexesOf(indexes, m.collection);
    var plan, diff := PlanOf(models, indexes, prune), DiffOf(m, stored, prune);
    var toDrop, toCreate := ToDrop(m.declared, stored), ToCreate(m.declared, stored);
    KeysConserved(toDrop, toCreate, stored, m.retired);
    assert d.key in toCreate <==> d.key in diff.toCreate || d.key in ReplacedKeys(diff.toReplace) by {
      assert d.key in toCreate <==> d.key in multiset(toCreate);
    }
    PlanListsModels(models, indexes, prune, diff);
    if Pending(m, stored, d) {
      assert d.key in toCreate;
      assert HasChanges(diff);
      assert WouldBuild(plan, m.collection, d.key);
    }
    if WouldBuild(plan, m.collection, d.key) {
      var other :| other in plan && other.collection == m.collection && (d.key in other.toCreate || d.key in ReplacedKeys(other.toReplace));
      PlanListsModels(models, indexes, prune, other);
      var n :| n in models && other == DiffOf(n, IndexesOf(indexes, n.collection), prune);
      SameModel(models, m, n);
      var e :| e in m.declared && Missing(e, stored) && e.key == d.key;
      SameDeclared(m.declared, d, e);
    }
  }

  /** The database and the models the enabled modules registered, one per collection. */
  class Database {
    const models: seq<Model>
    var indexes: map<string, seq<Stored>>
    var rows: map<string, seq<Row>>

    constructor (models: seq<Model>, indexes: map<string, seq<Stored>>, rows: map<string, seq<Row>>)
      ensures this.models == models && this.indexes == indexes && this.rows == rows
    {
      this.models, this.indexes, this.rows := models, indexes, rows;
    }

    method PlanIndexSync(prune: bool) returns (plan: seq<IndexDiff>)
      ensures plan == PlanOf(models, indexes, prune)
    {
      hide PlanOf, IsListed, DiffOf, ToCreate, ToDrop;
      plan := [];
      assert models[0..] == models;
      for i := 0 to |models|
        invariant plan + PlanOf(models[i..], indexes, prune) == PlanOf(models, indexes, prune)
      {
        var stored := IndexesOf(indexes, models[i].collection);
        var diff := Classify(models[i], stored, ToCreate(models[i].declared, stored), ToDrop(models[i].declared, stored), prune);
        PlanStep(models, i, indexes, prune);
        plan := plan + if IsListed(diff) then [diff] else [];
      }
      PlanEnds(models, indexes, prune);
    }

    /** Every unique key the plan would build that the rows already violate. */
    method FindBlockingDuplicates(plan: seq<IndexDiff>) returns (blocking: seq<(string, Key)>)
      ensures forall c, k :: (c, k) in blocking <==>
        exists m, d :: m in models && d in m.declared && m.collection == c && d.key == k
                       && IsBlocking(m, d, plan, RowsOf(rows, c))
    {
      blocking := [];
      for i := 0 to |models|
        invariant forall c, k :: (c, k) in blocking <==>
          exists m, d :: m in models[..i] && d in m.declared && m.collection == c && d.key == k
                         && IsBlocking(m, d, plan, RowsOf(rows, c))
      {
        hide IsBlocking, RowsOf;
        var found := BlockingOf(models[i], plan);
        assert models[..i + 1] == models[..i] + [models[i]];
        blocking := blocking + found;
      }
      assert models[..|models|] == models;
    }

    method BlockingOf(m: Model, plan: seq<IndexDiff>) returns (blocking: seq<(string, Key)>)
      ensures forall c, k :: (c, k) in blocking <==>
        exists d :: d in m.declared && m.collection == c && d.key == k && IsBlocking(m, d, plan, RowsOf(rows, c))
    {
      blocking := [];
      for i := 0 to |m.declared|
        invariant forall c, k :: (c, k) in blocking <==>
          exists d :: d in m.declared[..i] && m.collection == c && d.key == k && IsBlocking(m, d, plan, RowsOf(rows, c))
      {
        var d := m.declared[i];
        assert m.declared[..i + 1] == m.declared[..i] + [d];
        if IsBlocking(m, d, plan, RowsOf(rows, m.collection)) {
          blocking := blocking + [(m.collection, d.key)];
        }
      }
      assert m.declared[..|m.declared|] == m.declared;
    }

    method DropIndexes(collection: string, names: seq<string>)
      requires collection in indexes
      modifies this`indexes
      ensures indexes == old(indexes)[collection := AfterDrops(old(indexes)[collection], names)]
    {
      hide AfterDrops;
      DropNone(indexes[collection]);
      for i := 0 to |names|
        invariant collection in indexes && indexes == old(indexes)[collection := AfterDrops(old(indexes)[collection], names[..i])]
      {
        DropOneMore(old(indexes)[collection], names, i);
        indexes := indexes[collection := AfterDrops(indexes[collection], [names[i]])];
      }
      assert names[..|names|] == names;
    }

    /** Drops what one entry of the plan drops, then builds what the schema declares. */
    method ApplyDiff(m: Model, diff: IndexDiff, prune: bool) returns (built: bool)
      requires diff == DiffOf(m, IndexesOf(indexes, m.collection), prune) && HasChanges(diff)
      modifies this`indexes
      ensures built == Synced(m, old(indexes), rows, prune).Some?
      ensures indexes == old(indexes)[m.collection := if built then Synced(m, old(indexes), rows, prune).value
                                                      else HalfSynced(m, old(indexes), rows, prune)]
    {
      hide HasChanges, DiffOf, AfterDrops, CreateAll, CreateSome;
      ghost var stored := IndexesOf(indexes, m.collection);
      if m.collection !in indexes {
        indexes := indexes[m.collection := []];
      }
      DropIndexes(m.collection, DropsOf(diff));
      var left := indexes[m.collection];
      var now := CreateAll(m.declared, left, RowsOf(rows, m.collection));
      built := now.Some?;
      indexes := indexes[m.collection := if built then now.value else CreateSome(m.declared, left, RowsOf(rows, m.collection))];
    }

    /** Brings every registered collection up to the indexes its schema declares, or stops and reports. */
    method ApplyIndexSync(prune: bool) returns (r: SyncResult)
      requires OnePerCollection(models)
      requires forall m :: m in models ==> WellDeclared(m.declared)
      modifies this`indexes
      ensures SparesOthers(models, old(indexes), indexes)
      ensures r.NoModels? <==> models == []
      ensures r.NoModels? || r.Blocked? ==> indexes == old(indexes)
      ensures r.Blocked? <==> (exists m, d :: m in models && IsHeldUp(m, d, old(indexes), rows))
      ensures r.BuildFailed? ==> exists k :: 0 <= k < |models| && models[k].collection == r.collection
                                            && StoppedAt(models, old(indexes), indexes, rows, prune, k)
      ensures r.Applied? ==> r.plan == PlanOf(models, old(indexes), prune)
      ensures r.Applied? ==>
                forall m :: m in models ==> Some(IndexesOf(indexes, m.collection)) == Synced(m, old(indexes), rows, prune)
    {
      hide PlanOf, DiffOf, HasChanges, HasDuplicates, IsScanned, Pending, Synced, StoppedAt, IndexesOf, RowsOf, WellDeclared;
      OthersSpared(models, indexes);
      if models == [] {
        return NoModels;
      }
      HasElement(models);
      var plan := PlanIndexSync(prune);
      var blocking := FindBlockingDuplicates(plan);
      BlockedExactly(plan, prune, blocking);
      if blocking != [] {
        return Blocked(blocking);
      }
      var failed := ApplyPlan(plan, prune);
      r := if failed.Some? then BuildFailed(failed.value) else Applied(plan);
    }

    lemma {:induction false} BlockedExactly(plan: seq<IndexDiff>, prune: bool, blocking: seq<(string, Key)>)
      requires OnePerCollection(models) && plan == PlanOf(models, indexes, prune)
      requires forall m :: m in models ==> WellDeclared(m.declared)
      requires forall c, k :: (c, k) in blocking <==>
        exists m, d :: m in models && d in m.declared && m.collection == c && d.key == k
                       && IsBlocking(m, d, plan, RowsOf(rows, c))
      ensures blocking != [] <==> (exists m, d :: m in models && IsHeldUp(m, d, indexes, rows))
    {
      hide PlanOf, HasDuplicates, IsScanned, Missing, IndexesOf, RowsOf, WellDeclared, IsBlocking;
      forall m, d | m in models && d in m.declared
        ensures IsBlocking(m, d, plan, RowsOf(rows, m.collection)) <==> IsHeldUp(m, d, indexes, rows)
      {
        BlockingExact(models, indexes, RowsOf(rows, m.collection), prune, m, d);
        HeldUpExactly(m, d, indexes, rows);
      }
      if blocking != [] {
        var (c, k) := blocking[0];
        assert (c, k) in blocking;
      }
      if m, d :| m in models && IsHeldUp(m, d, indexes, rows) {
        assert (m.collection, d.key) in blocking;
      }
    }

    method ApplyPlan(plan: seq<IndexDiff>, prune: bool) returns (failed: Option<string>)
      requires OnePerCollection(models) && plan == PlanOf(models, indexes, prune)
      modifies this`indexes
      ensures SparesOthers(models, old(indexes), indexes)
      ensures failed.Some? ==> exists k :: 0 <= k < |models| && models[k].collection == failed.value
                                          && StoppedAt(models, old(indexes), indexes, rows, prune, k)
      ensures failed.None? ==>
                forall m :: m in models ==> Some(IndexesOf(indexes, m.collection)) == Synced(m, old(indexes), rows, prune)
    {
      hide PlanOf, DiffOf, HasChanges, Synced, HalfSynced, StoppedAt, PartlyApplied, SparesOthers, OnePerCollection, ModelOf;
      ghost var was := indexes;
      PlanIsPerCollection(models, indexes, prune);
      assert PartlyApplied(models, was, indexes, rows, prune, plan[..0]) by {
        NothingApplied(models, was, rows, prune);
      }
      assert SparesOthers(models, was, indexes) by {
        OthersSpared(models, was);
      }
      for i := 0 to |plan|
        invariant PartlyApplied(models, was, indexes, rows, prune, plan[..i])
        invariant SparesOthers(models, was, indexes)
      {
        var diff := plan[i];
        if HasChanges(diff) {
          ghost var owner := EntryOf(models, was, prune, i);
          var model := ModelOf(models, diff.collection);
          DiffNames(owner, IndexesOf(was, owner.collection), prune);
          NotYetChanged(plan, i);
          Untouched(models, was, indexes, rows, prune, plan[..i], owner);
          SyncedSame(owner, was, indexes, rows, prune);
          ghost var before := indexes;
          var built := ApplyDiff(model.value, diff, prune);
          StillSparesOthers(models, was, before, owner, indexes[owner.collection]);
          if !built {
            ghost var k := PlanInModelOrder(models, was, prune, i);
            DiffNames(models[k], IndexesOf(was, models[k].collection), prune);
            SameModel(models, models[k], owner);
            SameHalf(owner, was, before, rows, prune);
            StoppedAtEntry(models, was, before, rows, prune, i, k);
            return Some(diff.collection);
          }
          AppliedOne(models, was, before, rows, prune, plan, i, owner, Synced(owner, was, rows, prune).value);
        } else {
          SkippedOne(models, was, indexes, rows, prune, plan, i);
        }
      }
      assert plan[..|plan|] == plan;
      FullyApplied(models, was, indexes, rows, prune);
      return None;
    }
  }

  lemma {:induction false} NothingApplied(models: seq<Model>, was: map<string, seq<Stored>>, rows: map<string, seq<Row>>, prune: bool)
    ensures PartlyApplied(models, was, was, rows, prune, [])
  {
  }

  lemma {:induction false} OthersSpared(models: seq<Model>, was: map<string, seq<Stored>>)
    ensures SparesOthers(models, was, was)
  {
  }

  lemma {:induction false} Untouched(models: seq<Model>, was: map<string, seq<Stored>>, now: map<string, seq<Stored>>,
                                     rows: map<string, seq<Row>>, prune: bool, done: seq<IndexDiff>, m: Model)
    requires PartlyApplied(models, was, now, rows, prune, done) && m in models && !Changes(done, m.collection)
    ensures IndexesOf(now, m.collection) == IndexesOf(was, m.collection)
  {
  }

  lemma {:induction false} SyncedSame(m: Model, was: map<string, seq<Stored>>, now: map<string, seq<Stored>>,
                                      rows: map<string, seq<Row>>, prune: bool)
    requires IndexesOf(now, m.collection) == IndexesOf(was, m.collection)
    ensures Synced(m, now, rows, prune) == Synced(m, was, rows, prune)
  {
  }

  lemma {:induction false} SameHalf(m: Model, was: map<string, seq<Stored>>, now: map<string, seq<Stored>>,
                                    rows: map<string, seq<Row>>, prune: bool)
    requires IndexesOf(now, m.collection) == IndexesOf(was, m.collection)
    ensures HalfSynced(m, now, rows, prune) == HalfSynced(m, was, rows, prune)
  {
  }

  lemma {:induction false} DropNone(stored: seq<Stored>)
    ensures AfterDrops(stored, []) == stored
  {
    FilterAll(stored, (s: Stored) => s.name !in []);
  }

  lemma {:induction false} DropOneMore(stored: seq<Stored>, names: seq<string>, i: nat)
    requires i < |names|
    ensures AfterDrops(AfterDrops(stored, names[..i]), [names[i]]) == AfterDrops(stored, names[..i + 1])
  {
    assert names[..i + 1] == names[..i] + [names[i]];
    FilterTwice(stored, (s: Stored) => s.name !in names[..i], (s: Stored) => s.name !in [names[i]],
                (s: Stored) => s.name !in names[..i + 1]);
  }

  /** What a caller can check before a sync: nothing kept disagrees in name, and no pending index meets unscanned rows. */
  ghost predicate ReadyToSync(m: Model, indexes: map<string, seq<Stored>>, rows: map<string, seq<Row>>, prune: bool) {
    var stored := IndexesOf(indexes, m.collection);
    && NamesAgree(m.declared, Left(m, stored, prune))
    && forall d :: Pending(m, stored, d) ==> !HiddenViolation(RowsOf(rows, m.collection), d)
  }

  /** Past a clean scan, a collection with work to do syncs exactly when it is ready. */
  lemma {:induction false} SyncsExactlyWhenReady(m: Model, indexes: map<string, seq<Stored>>, rows: map<string, seq<Row>>, prune: bool)
    requires WellStored(IndexesOf(indexes, m.collection)) && WellDeclared(m.declared)
    requires ScanIsClean(m, IndexesOf(indexes, m.collection), RowsOf(rows, m.collection))
    requires HasChanges(DiffOf(m, IndexesOf(indexes, m.collection), prune))
    ensures Synced(m, indexes, rows, prune).Some? <==> ReadyToSync(m, indexes, rows, prune)
  {
    hide Left, HiddenViolation, DiffOf, HasChanges, SyncOne;
    SyncExact(m, IndexesOf(indexes, m.collection), RowsOf(rows, m.collection), prune);
  }

  /** A database synced throughout holds every declared index and plans no further change. */
  lemma {:induction false} SecondPlanIsQuiet(models: seq<Model>, was: map<string, seq<Stored>>, now: map<string, seq<Stored>>,
                                             rows: map<string, seq<Row>>, prune: bool)
    requires forall m :: m in models ==>
      && WellDeclared(m.declared) && WellStored(IndexesOf(was, m.collection))
      && NamesAgree(m.declared, Left(m, IndexesOf(was, m.collection), prune))
      && Some(IndexesOf(now, m.collection)) == Synced(m, was, rows, prune)
    ensures forall m, d :: m in models && d in m.declared ==> AsStored(d) in IndexesOf(now, m.collection)
    ensures forall diff :: diff in PlanOf(models, now, prune) ==> !HasChanges(diff)
  {
    hide PlanOf, HasChanges, DiffOf, SyncOne, Left, WellStored, WellDeclared, NamesAgree, IndexesOf;
    forall m | m in models
      ensures !HasChanges(DiffOf(m, IndexesOf(now, m.collection), prune))
      ensures forall d :: d in m.declared ==> AsStored(d) in IndexesOf(now, m.collection)
    {
      SyncConverges(m, IndexesOf(was, m.collection), RowsOf(rows, m.collection), prune);
      SyncedStoresAll(m, IndexesOf(was, m.collection), RowsOf(rows, m.collection), prune);
    }
    forall diff | diff in PlanOf(models, now, prune) ensures !HasChanges(diff) {
      PlanListsModels(models, now, prune, diff);
    }
  }

  /** Where a clean scan is not enough: two documents that lack the key share the null entry of a plain index. */
  lemma {:induction false} AbsentFieldsPassTheScan(field: string, name: string, others: string)
    ensures var d := Declared([KeyPart(field, "1")], name, Options(true, AllRows, others));
            var rows := [Row(map[], {}), Row(map[], {})];
            && !HasDuplicates(rows, d.key)
            && HiddenViolation(rows, d)
            && CreateOne(d, [], rows).None?
  {
    var d := Declared([KeyPart(field, "1")], name, Options(true, AllRows, others));
    var rows := [Row(map[], {}), Row(map[], {})];
    forall i | 0 <= i < 2 ensures !IsComplete(rows[i], d.key) {
      assert CellOf(rows[i], d.key[0].field) == Null;
    }
    assert SameEntry(rows[0], rows[1], d.key);
    ScanAndBlindSpots(rows, d);
  }

  /** The field is there, and null. */
  predicate IsExplicitNull(row: Row, field: string) {
    field in row.cells && row.cells[field] == Null
  }

  /**
   * A unique sparse index on one field does not mind any number of documents that lack it: past a clean
   * scan it is built exactly when no two documents have an explicit null there.
   */
  lemma {:induction false} SparseMindsOnlyExplicitNulls(field: string, order: string, name: string, others: string, rows: seq<Row>)
    ensures var d := Declared([KeyPart(field, order)], name, Options(true, Sparse, others));
            && (HiddenViolation(rows, d) <==>
                exists i, j :: 0 <= i < j < |rows| && IsExplicitNull(rows[i], field) && IsExplicitNull(rows[j], field))
            && (!HasDuplicates(rows, d.key) ==>
                  CreateOne(d, [], rows) == if HiddenViolation(rows, d) then None else Some([AsStored(d)]))
  {
    hide HasDuplicates, Violated, HiddenViolation, IsExplicitNull;
    var d := Declared([KeyPart(field, order)], name, Options(true, Sparse, others));
    ScanAndBlindSpots(rows, d);
    SparseHidden(rows, d);
    assert [] + [AsStored(d)] == [AsStored(d)];
  }

  lemma {:induction false} SparseHidden(rows: seq<Row>, d: Declared)
    requires |d.key| == 1 && d.options.unique && d.options.coverage == Sparse
    ensures HiddenViolation(rows, d) <==>
            exists i, j :: 0 <= i < j < |rows| && IsExplicitNull(rows[i], d.key[0].field) && IsExplicitNull(rows[j], d.key[0].field)
  {
    hide SameEntry, Covers, IsComplete, IsExplicitNull;
    forall i, j | 0 <= i < j < |rows|
      ensures IsExplicitNull(rows[i], d.key[0].field) && IsExplicitNull(rows[j], d.key[0].field) <==>
              && SameEntry(rows[i], rows[j], d.key) && Covers(d, rows[i]) && Covers(d, rows[j])
              && !IsComplete(rows[i], d.key)
    {
      NullsMeet(rows[i], rows[j], d);
    }
  }

  lemma {:induction false} NullsMeet(a: Row, b: Row, d: Declared)
    requires |d.key| == 1 && d.options.coverage == Sparse
    ensures IsExplicitNull(a, d.key[0].field) && IsExplicitNull(b, d.key[0].field) <==>
            SameEntry(a, b, d.key) && Covers(d, a) && Covers(d, b) && !IsComplete(a, d.key)
  {
  }
}
